/**
 The scan of a .deb archive for its control or data member (extracthalf in daemon/debresolve.c). A file
 is a string of bytes.
*/
module ArScan {
  import opened CStrings
  import opened FileSystem
  import opened Numbers

  const MAGIC := "!<arch>\n"
  const DEBMAGIC := "debian-binary"
  const ADMINMEMBER := "control.tar"
  const DATAMEMBER := "data.tar"
  const ARFMAG := "`\n"
  const HEADER := 60
  const NAME := 16

  // ----- reading

  /** fd_read: up to n bytes at an offset, fewer only at the end of the file. */
  function Chunk(file: string, at: nat, n: nat): (s: string)
    ensures |s| <= n
  {
    if at >= |file| then "" else if at + n <= |file| then file[at..at + n] else file[at..]
  }

  /** The part of read_line's loop body that reads into the buffer: got goes to buf + size, nl is the first newline. */
  method Fill(buf: array<char>, size: nat, got: string) returns (nl: int)
    requires size + |got| <= buf.Length
    modifies buf
    ensures buf[..size] == old(buf[..size]) && buf[size..size + |got|] == got
    ensures -1 <= nl < |got|
    ensures if nl < 0 then '\n' !in got else got[nl] == '\n' && '\n' !in got[..nl]
  {
    nl := -1;
    var i := 0;
    while i < |got|
      invariant 0 <= i <= |got| && -1 <= nl < i
      invariant buf[..size] == old(buf[..size]) && buf[size..size + i] == got[..i]
      invariant if nl < 0 then '\n' !in got[..i] else got[nl] == '\n' && '\n' !in got[..nl]
    {
      buf[size + i] := got[i];
      assert buf[size..size + i + 1] == buf[size..size + i] + [got[i]];
      if nl < 0 && got[i] == '\n' {
        nl := i;
      }
      i := i + 1;
    }
  }

  /**
   read_line: up to max bytes go to the buffer, and a NUL behind them. The NUL falls behind a buffer of
   max bytes exactly when the file has that many bytes and no newline among all but the last one. At the
   end of the file it returns 0 and writes no NUL; otherwise the buffer holds the magic line exactly if
   the file does.
  */
  method ReadLine(file: string, at: nat, buf: array<char>, max: nat) returns (size: nat, at': nat, outside: bool)
    requires |MAGIC| < max <= buf.Length
    modifies buf
    ensures outside <==> buf.Length == max && |Chunk(file, at, max)| == max && '\n' !in Chunk(file, at, max - 1)
    ensures size > 0 ==> (CStr(buf[..]) == MAGIC <==> Chunk(file, at, |MAGIC|) == MAGIC)
    ensures Chunk(file, at, |MAGIC|) == MAGIC ==> size == |MAGIC| && at' == at + size
    ensures size == 0 ==> at' >= |file|
  {
    hide Chunk, CStr, Holds;
    size, at', outside := 0, at, false;
    var n := |MAGIC|;
    HoldsNone(file, at, buf[..]);
    while size < max
      invariant size <= max && at' == at + size && n == (if size == 0 then |MAGIC| else 1)
      invariant Holds(file, at, size, buf[..]) && '\n' !in buf[..][..size]
      decreases max - size
    {
      var got := Chunk(file, at', n);
      if |got| == 0 {
        AtEnd(file, at, size, n, max, buf[..]);
        return 0, at', false;
      }
      ghost var before := buf[..];
      var nl := Fill(buf, size, got);
      ghost var line := buf[..];
      HoldsMore(file, at, size, n, before, line, got, nl);
      at' := at' + |got|;
      size := size + |got|;
      if nl >= 0 {
        var end := size - |got| + nl + 1;
        outside := PutNul(buf, end);
        LineEnd(file, at, max, size, end, line);
        MagicLine(file, at, size, line, end, buf[..]);
        return;
      }
      n := 1;
    }
    ghost var line := buf[..];
    outside := PutNul(buf, size);
    Full(file, at, max, line);
    MagicLine(file, at, size, line, size, buf[..]);
  }

  /** The buffer starts with the next size bytes of the file. */
  ghost predicate Holds(file: string, at: nat, size: nat, buf: seq<char>) {
    size <= |buf| && Chunk(file, at, size) == buf[..size] && (0 < size < |MAGIC| ==> at + size >= |file|)
  }

  lemma HoldsNone(file: string, at: nat, buf: seq<char>)
    ensures Holds(file, at, 0, buf)
  {
  }

  /** Behind the next bytes got, the first newline of which is at nl. */
  lemma HoldsMore(file: string, at: nat, size: nat, n: nat, before: seq<char>, buf: seq<char>, got: string, nl: int)
    requires Holds(file, at, size, before) && '\n' !in before[..size] && n == (if size == 0 then |MAGIC| else 1)
    requires got == Chunk(file, at + size, n) && got != ""
    requires size + |got| <= |buf| && buf[..size] == before[..size] && buf[size..size + |got|] == got
    requires -1 <= nl < |got| && if nl < 0 then '\n' !in got else got[nl] == '\n' && '\n' !in got[..nl]
    ensures Holds(file, at, size + |got|, buf) && (size > 0 ==> size >= |MAGIC|)
    ensures if nl < 0 then '\n' !in buf[..size + |got|] else buf[size + nl] == '\n' && '\n' !in buf[..size + nl]
  {
    hide Chunk;
    assert buf[..size + |got|] == buf[..size] + got;
    ChunkMore(file, at, size, n);
    FirstNewline(buf[..size], got, nl);
    assert nl >= 0 ==> buf[..size + nl] == (buf[..size] + got)[..size + nl];
    assert nl >= 0 ==> buf[size + nl] == (buf[..size] + got)[size + nl];
  }

  lemma ChunkMore(file: string, at: nat, size: nat, n: nat)
    requires |Chunk(file, at, size)| == size && (size == 0 || n == 1)
    ensures var got := Chunk(file, at + size, n); Chunk(file, at, size + |got|) == Chunk(file, at, size) + got
    ensures |Chunk(file, at + size, n)| < n ==> at + size + |Chunk(file, at + size, n)| >= |file|
    ensures at + size >= |file| ==> Chunk(file, at + size, n) == ""
  {
  }

  lemma FirstNewline(a: string, got: string, nl: int)
    requires '\n' !in a
    requires -1 <= nl < |got| && if nl < 0 then '\n' !in got else got[nl] == '\n' && '\n' !in got[..nl]
    ensures if nl < 0 then '\n' !in a + got else (a + got)[|a| + nl] == '\n' && '\n' !in (a + got)[..|a| + nl]
  {
    assert nl >= 0 ==> (a + got)[..|a| + nl] == a + got[..nl];
  }

  lemma AtEnd(file: string, at: nat, size: nat, n: nat, max: nat, buf: seq<char>)
    requires Chunk(file, at + size, n) == "" && n > 0 && Holds(file, at, size, buf) && '\n' !in buf[..size]
    requires |MAGIC| < max && size < max
    ensures at + size >= |file| && |Chunk(file, at, max)| < max && Chunk(file, at, |MAGIC|) != MAGIC
  {
    assert size >= |MAGIC| ==> Chunk(file, at, |MAGIC|) == Chunk(file, at, size)[..|MAGIC|];
    assert MAGIC[7] == '\n';
  }

  /** The first newline ends the line just in front of end. */
  lemma LineEnd(file: string, at: nat, max: nat, size: nat, end: nat, line: seq<char>)
    requires 1 <= end <= size <= max && Holds(file, at, size, line)
    requires line[end - 1] == '\n' && '\n' !in line[..end - 1]
    ensures end == max <==> |Chunk(file, at, max)| == max && '\n' !in Chunk(file, at, max - 1)
  {
    if end == max {
      assert Chunk(file, at, max - 1) == line[..end - 1];
    } else {
      assert line[..size][end - 1] == '\n';
      assert |Chunk(file, at, max)| == max ==> Chunk(file, at, max - 1)[end - 1] == '\n';
    }
  }

  lemma Full(file: string, at: nat, max: nat, line: seq<char>)
    requires Holds(file, at, max, line) && '\n' !in line[..max] && max > 0
    ensures |Chunk(file, at, max)| == max && '\n' !in Chunk(file, at, max - 1)
  {
    assert Chunk(file, at, max - 1) == line[..max][..max - 1];
  }

  /** buf[i] = '\0', which may fall just behind the buffer. */
  method PutNul(buf: array<char>, i: nat) returns (outside: bool)
    requires i <= buf.Length
    modifies buf
    ensures outside <==> i == buf.Length
    ensures buf[..] == if outside then old(buf[..]) else old(buf[..])[i := NUL]
  {
    outside := i == buf.Length;
    if !outside {
      buf[i] := NUL;
    }
  }

  /** The line in the buffer is cut off at end. */
  lemma MagicLine(file: string, at: nat, size: nat, line: seq<char>, end: nat, buf: seq<char>)
    requires Holds(file, at, size, line) && 0 < end <= size && |MAGIC| < |line|
    requires '\n' !in line[..end - 1] && (line[end - 1] == '\n' || (end == size && size > |MAGIC|))
    requires buf == if end == |line| then line else line[end := NUL]
    ensures CStr(buf) == MAGIC <==> Chunk(file, at, |MAGIC|) == MAGIC
    ensures Chunk(file, at, |MAGIC|) == MAGIC ==> end == |MAGIC| && size >= |MAGIC|
  {
    var first := Chunk(file, at, |MAGIC|);
    assert MAGIC[7] == '\n' && forall i | 0 <= i < 7 :: MAGIC[i] != '\n';
    assert forall i | 0 <= i < end - 1 :: line[..end - 1][i] == line[i];
    assert size < |MAGIC| ==> first == line[..size];
    assert size >= |MAGIC| ==> first == Chunk(file, at, size)[..|MAGIC|] == line[..|MAGIC|];
    if first == MAGIC {
      assert forall i | 0 <= i < |MAGIC| :: line[i] == MAGIC[i];
      assert buf[..|MAGIC|] == MAGIC;
      CStrIs(buf, MAGIC);
    } else if end <= 7 {
      assert buf[..|MAGIC|][end] == NUL && MAGIC[end] != NUL;
    } else {
      assert buf[..|MAGIC|] == line[..|MAGIC|];
    }
  }

  // ----- the member header

  /** The name field with trailing blanks, and a slash in front of them, replaced by NULs. */
  function NormalizeName(field: string): (r: string)
    ensures |r| == |field|
  {
    var n := |Unpadded(field)|;
    seq(|field|, i requires 0 <= i < |field| => if i < n then field[i] else NUL)
  }

  function Unblanked(s: string): (r: string)
    ensures r <= s
  {
    if s != "" && s[|s| - 1] == ' ' then Unblanked(s[..|s| - 1]) else s
  }

  function Unpadded(s: string): (r: string)
    ensures r <= s
  {
    var t := Unblanked(s);
    if t != "" && t[|t| - 1] == '/' then t[..|t| - 1] else t
  }

  function SkipBlanks(s: string): string {
    if s != "" && s[0] == ' ' then SkipBlanks(s[1..]) else s
  }

  /** dpkg_ar_member_get_size: a blank field is 0; None stands for the end of the program on a bad character. */
  function MemberSize(field: string): Option<nat> {
    var (n, rest) := ReadDigits(SkipBlanks(field), 10, 0);
    if rest == "" || rest[0] == ' ' then Some(n) else None
  }

  datatype Compressor = NoCompressor | Gzip | Xz | Other(extension: string) | Unknown

  /** compressor_find_by_extension; others are the further extensions that the library knows. */
  function FindByExtension(others: set<string>, ext: string): Compressor {
    if ext == "" then NoCompressor
    else if ext == ".gz" then Gzip
    else if ext == ".xz" then Xz
    else if ext in others then Compressor.Other(ext)
    else Unknown
  }

  datatype Kind = ControlTar(compressor: Compressor) | DataTar(compressor: Compressor) | Foreign

  /** What the name at the start of a normalized header says. */
  function KindOf(header: string, others: set<string>): Kind {
    if ADMINMEMBER <= header then ControlTar(FindByExtension(others, CStr(header[|ADMINMEMBER|..])))
    else if DATAMEMBER <= header then DataTar(FindByExtension(others, CStr(header[|DATAMEMBER|..])))
    else Foreign
  }

  // ----- the scan

  datatype Scan = NotNew | Reject | Found(offset: nat, memberlen: nat, decompressor: Compressor)

  /** How far the scan has come: nothing seen, the version member, or a control member of the given length. */
  datatype Progress = Before | Version | Control(length: nat)

  datatype Rules = Rules(admininfo: bool, major: string -> Option<int>, others: set<string>)

  function Padded(len: nat): nat {
    len + len % 2
  }

  /** The version member must be complete and hold a line with major number 2. */
  function GoodVersion(file: string, at: nat, len: nat, rules: Rules): bool {
    var info := Chunk(file, at, Padded(len));
    |info| == Padded(len) && var text := CStr(info[..len]); '\n' in text && rules.major(text) == Some(2)
  }

  /** The members from an offset on. */
  function Scanned(file: string, at: nat, p: Progress, rules: Rules): Scan
    decreases |file| - at
  {
    var h := Chunk(file, at, HEADER);
    if |h| != HEADER || h[58..] != ARFMAG then Reject
    else match MemberSize(h[48..58])
      case None => Reject
      case Some(len) =>
        var name := NormalizeName(h[..NAME]);
        var data := at + HEADER;
        var next := data + Padded(len);
        if p == Before then
          if CStr(name) == DEBMAGIC && GoodVersion(file, data, len, rules) then Scanned(file, next, Version, rules)
          else Reject
        else if name[0] == '_' then Scanned(file, next, p, rules)
        else match KindOf(name + h[NAME..], rules.others)
          case ControlTar(c) =>
            if c !in {NoCompressor, Gzip, Xz} || (p.Control? && p.length != 0) then Reject
            else if rules.admininfo then Found(data, len, c)
            else Scanned(file, next, Control(len), rules)
          case DataTar(c) =>
            // With admininfo the control member in front has already been found.
            if !p.Control? || c == Unknown || rules.admininfo then Reject else Found(data, len, c)
          case Foreign => Reject
  }

  /** A file of forty letters makes the NUL of its first line fall behind the buffer. */
  lemma LongLine(file: string)
    requires file == seq(40, _ => 'x')
    ensures |Chunk(file, 0, 40)| == 40 && '\n' !in Chunk(file, 0, 39)
  {
  }

  lemma WholeChunk(file: string, at: nat, n: nat)
    requires n > 0
    ensures |Chunk(file, at, n)| == n <==> at + n <= |file|
  {
  }

  function StateOf(headerDone: bool, adminmember: int, ctrllennum: nat): Progress {
    if !headerDone then Before else if adminmember == 1 then Control(ctrllennum) else Version
  }

  /**
   The loop of extracthalf over the members, up to the first data byte of the control member (admininfo
   set) or of the data member. NotNew means that the file does not start with the magic line; stack is
   what the buffer of that line holds before, and rules.major the parser of version lines.
  */
  method ScanMembers(file: string, stack: seq<char>, rules: Rules) returns (r: Scan)
    requires |stack| == 40
    ensures Chunk(file, 0, |MAGIC|) == MAGIC ==> r == Scanned(file, |MAGIC|, Before, rules)
    ensures Chunk(file, 0, |MAGIC|) != MAGIC ==> !r.Found?
  {
    hide KindOf, NormalizeName, MemberSize, GoodVersion, CStr, Chunk, Padded;
    var versionbuf := new char[40](i requires 0 <= i < 40 => stack[i]);
    var size, at, outside := ReadLine(file, 0, versionbuf, 40);
    if CStr(versionbuf[..]) != MAGIC {
      return NotNew;
    }
    ghost var new_ := Chunk(file, 0, |MAGIC|) == MAGIC;
    var headerDone, adminmember, ctrllennum := false, -1, 0;
    while true
      invariant if new_ then Scanned(file, at, StateOf(headerDone, adminmember, ctrllennum), rules) ==
                             Scanned(file, |MAGIC|, Before, rules)
                else at >= |file|
      invariant adminmember in {-1, 1} && (!headerDone ==> adminmember == -1 && ctrllennum == 0)
      invariant adminmember == -1 ==> ctrllennum == 0
      invariant adminmember == 1 ==> !rules.admininfo
      decreases |file| - at
    {
      var arh := Chunk(file, at, HEADER);
      WholeChunk(file, at, HEADER);
      if |arh| != HEADER {
        return Reject;
      }
      var name := NormalizeName(arh[..NAME]);
      if arh[58..] != ARFMAG {
        return Reject;
      }
      var memberlen;
      match MemberSize(arh[48..58]) {
        case None => return Reject;
        case Some(len) => memberlen := len;
      }
      at := at + HEADER;
      if !headerDone {
        if CStr(name) != DEBMAGIC || !GoodVersion(file, at, memberlen, rules) {
          return Reject;
        }
        at := at + Padded(memberlen);
        headerDone := true;
      } else if name[0] == '_' {
        at := at + Padded(memberlen);
      } else {
        var decompressor;
        match KindOf(name + arh[NAME..], rules.others) {
          case ControlTar(c) =>
            adminmember := 1;
            decompressor := c;
            if decompressor !in {NoCompressor, Gzip, Xz} {
              return Reject;
            }
          case DataTar(c) =>
            if adminmember != 1 {
              return Reject;
            }
            adminmember := 0;
            decompressor := c;
            if decompressor == Unknown {
              return Reject;
            }
          case Foreign => return Reject;
        }
        if adminmember == 1 {
          if ctrllennum != 0 {
            return Reject;
          }
          ctrllennum := memberlen;
        }
        if (adminmember == 0) != !rules.admininfo {
          at := at + Padded(memberlen);
        } else {
          return Found(at, memberlen, decompressor);
        }
      }
    }
  }
}
