/** The growable string buffer of daemon/misc.c. */
module StringBuf {
  import opened CStrings
  import opened Numbers

  const BUF_CHUNK := 1024

  /** s without the blanks at its end. */
  function Stripped(s: string): (r: string)
    ensures r <= s
  {
    if s != "" && IsSpace(s[|s| - 1]) then Stripped(s[..|s| - 1]) else s
  }

  /** The longest prefix that does not end in a blank: only blanks are lost. */
  lemma {:induction false} StrippedIs(s: string)
    ensures var r := Stripped(s);
            && (r == "" || !IsSpace(r[|r| - 1])) && forall c | c in s[|r|..] :: IsSpace(c)
  {
    if s != "" && IsSpace(s[|s| - 1]) {
      var n := |s| - 1;
      var r := Stripped(s[..n]);
      StrippedIs(s[..n]);
      assert s[|r|..] == s[..n][|r|..] + [s[n]];
    }
  }

  class StringBufRec {
    var buf: array<char>
    var tail: int
    var size: int  // allocated
    var room: int  // free

    /** The text before the tail, and a NUL at the tail inside the buffer. */
    ghost predicate Valid()
      reads this, buf
    {
      && buf.Length == size && tail == size - room && room >= 1 && tail >= 0
      && NoNul(buf[..tail]) && buf[tail] == NUL
    }

    /** getStringBuf: the C string in the buffer. */
    function Text(): (s: string)
      requires Valid()
      reads this, buf
      ensures |s| == tail && s == buf[..tail]
    {
      CStrIs(buf[..], buf[..tail]);
      CStr(buf[..])
    }

    constructor ()
      ensures Valid() && fresh(buf) && Text() == ""
    {
      room, size, tail := BUF_CHUNK, BUF_CHUNK, 0;
      buf := new char[BUF_CHUNK](_ => NUL);
    }

    /** One turn of the loop of appendStringBufAux: the buffer is reallocated one chunk larger. */
    method Grow()
      requires Valid()
      modifies this
      ensures Valid() && fresh(buf) && Text() == old(Text())
      ensures room == old(room) + BUF_CHUNK && size == old(size) + BUF_CHUNK
    {
      size := size + BUF_CHUNK;
      room := room + BUF_CHUNK;
      var larger := new char[size](_ => NUL);
      var i := 0;
      while i < buf.Length
        invariant 0 <= i <= buf.Length < larger.Length
        invariant larger[..i] == buf[..i]
        modifies larger
      {
        larger[i] := buf[i];
        assert larger[..i + 1] == larger[..i] + [buf[i]] && buf[..i + 1] == buf[..i] + [buf[i]];
        i := i + 1;
      }
      assert larger[tail] == larger[..i][tail] && larger[..tail] == larger[..i][..tail];
      buf := larger;
      tail := size - room;
    }

    /** appendStringBufAux: s, and a newline if nl is set, go behind the text. */
    method Append(s: string, nl: bool)
      requires Valid() && NoNul(s)
      modifies this, buf
      ensures Valid() && (buf == old(buf) || fresh(buf))
      ensures Text() == old(Text()) + s + if nl then "\n" else ""
    {
      hide CStr;
      var l := |s|;
      ghost var text := Text();
      while l + (if nl then 1 else 0) + 1 > room
        invariant Valid() && Text() == text && (buf == old(buf) || fresh(buf))
        invariant buf == old(buf) ==> buf[..] == old(buf[..])
        decreases l + 2 - room
        modifies this
      {
        Grow();
      }
      CopyAt(buf, tail, s);
      assert buf[..tail + l] == text + s;
      tail := tail + l;
      room := room - l;
      if nl {
        ghost var longer := text + s;
        buf[tail] := '\n';
        buf[tail + 1] := NUL;
        assert buf[..tail + 1] == buf[..tail] + "\n" == longer + "\n";
        tail := tail + 1;
        room := room - 1;
      }
    }

    /** stripTrailingBlanksStringBuf */
    method StripTrailingBlanks()
      requires Valid()
      modifies this, buf
      ensures Valid() && buf == old(buf) && Text() == Stripped(old(Text()))
    {
      hide CStr, IsSpace;
      ghost var text := Text();
      assert text[..tail] == text;
      while room != size && IsSpace(buf[tail - 1])
        invariant buf == old(buf) && buf.Length == size && tail == size - room && room >= 1 && tail >= 0
        invariant tail <= |text| && buf[..] == old(buf[..]) && Stripped(text[..tail]) == Stripped(text)
        decreases tail
      {
        assert text[..tail][..tail - 1] == text[..tail - 1];
        room := room + 1;
        tail := tail - 1;
      }
      assert text[..tail] == buf[..tail];
      buf[tail] := NUL;
      assert buf[..tail] == text[..tail];
    }
  }
}
