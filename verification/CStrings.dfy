/** NUL-terminated strings, and the few string(3) functions the daemon relies on. */
module CStrings {

  const NUL := '\0'

  ghost predicate NoNul(s: string) {
    NUL !in s
  }

  /** The C string that starts at the beginning of b: everything before the first NUL. */
  function CStr(b: seq<char>): (s: string)
    ensures NoNul(s) && |s| <= |b| && s == b[..|s|]
    ensures |s| < |b| ==> b[|s|] == NUL
  {
    if b == [] || b[0] == NUL then "" else [b[0]] + CStr(b[1..])
  }

  /** A buffer that holds the characters of s followed by a NUL reads back as s. */
  lemma {:induction false} CStrIs(b: seq<char>, s: string)
    requires NoNul(s) && |s| < |b| && b[..|s|] == s && b[|s|] == NUL
    ensures CStr(b) == s
  {
    if s != "" {
      assert b[1..][..|s| - 1] == b[..|s|][1..];
      CStrIs(b[1..], s[1..]);
    }
  }

  /** strrchr(s, '/') as an index; -1 when there is no slash. */
  function LastSlash(s: string): (i: int)
    ensures -1 <= i < |s|
    ensures i >= 0 ==> s[i] == '/'
  {
    if s == "" then -1
    else if s[|s| - 1] == '/' then |s| - 1
    else LastSlash(s[..|s| - 1])
  }

  lemma {:induction false} LastSlashIs(s: string, i: nat)
    requires i < |s| && s[i] == '/' && '/' !in s[i + 1..]
    ensures LastSlash(s) == i
  {
    var n := |s| - 1;
    if i < n {
      assert s[n] == s[i + 1..][n - i - 1];
      assert s[..n][i + 1..] == s[i + 1..][..n - i - 1];
      LastSlashIs(s[..n], i);
    }
  }

  /** strcpy(buf + at, s) */
  method CopyAt(buf: array<char>, at: nat, s: string)
    requires NoNul(s) && at + |s| < buf.Length
    modifies buf
    ensures buf[..at] == old(buf[..at]) && buf[at..at + |s|] == s && buf[at + |s|] == NUL
  {
    var i := 0;
    while i < |s|
      invariant i <= |s| && buf[..at] == old(buf[..at]) && buf[at..at + i] == s[..i]
    {
      buf[at + i] := s[i];
      assert buf[at..at + i + 1] == buf[at..at + i] + [s[i]];
      i := i + 1;
    }
    buf[at + |s|] := NUL;
  }
}
