/** Octal, decimal and hexadecimal numbers as text: printf(3) and strtol(3). */
module Numbers {

  const LONG_MAX := 0x7FFF_FFFF_FFFF_FFFF

  const DIGITS := "0123456789abcdef"

  type Base = b: nat | b == 8 || b == 10 || b == 16 witness 10

  function Times(n: nat, base: Base): nat {
    if base == 8 then n * 8 else if base == 10 then n * 10 else n * 16
  }

  /** The number without its last digit, and that digit. */
  function Split(n: nat, base: Base): (r: (nat, nat))
    ensures r.1 < base && n == Times(r.0, base) + r.1
    ensures r.0 <= n && (n >= base ==> r.0 < n)
  {
    if base == 8 then (n / 8, n % 8) else if base == 10 then (n / 10, n % 10) else (n / 16, n % 16)
  }

  function Digits(n: nat, base: Base): (s: string)
    ensures s != ""
  {
    var (q, d) := Split(n, base);
    (if n < base then "" else Digits(q, base)) + [DIGITS[d]]
  }

  /** The value of a digit; 16 for any other character. */
  function DigitValue(c: char): (d: nat)
    ensures d <= 16
  {
    if '0' <= c <= '9' then c as nat - '0' as nat
    else if 'a' <= c <= 'f' then c as nat - 'a' as nat + 10
    else if 'A' <= c <= 'F' then c as nat - 'A' as nat + 10
    else 16
  }

  /** Reads digits as far as there are any: the value and what follows. */
  function ReadDigits(s: string, base: Base, value: nat): (nat, string)
  {
    if s == "" || DigitValue(s[0]) >= base then (value, s)
    else ReadDigits(s[1..], base, Times(value, base) + DigitValue(s[0]))
  }

  predicate IsSpace(c: char) {
    c == ' ' || '\t' <= c <= '\r'
  }

  function SkipSpace(s: string): string {
    if s != "" && IsSpace(s[0]) then SkipSpace(s[1..]) else s
  }

  /** strtol(3): the number and what follows. */
  function StrToL(s: string, base: Base): (int, string)
  {
    var t := SkipSpace(s);
    var minus := t != "" && t[0] == '-';
    var u := if t != "" && t[0] in {'-', '+'} then t[1..] else t;
    var v := if base == 16 && |u| > 2 && u[0] == '0' && u[1] in {'x', 'X'} && DigitValue(u[2]) < 16 then u[2..] else u;
    var (n, rest) := ReadDigits(v, base, 0);
    (if minus then if n > LONG_MAX + 1 then -LONG_MAX - 1 else 0 - n else if n > LONG_MAX then LONG_MAX else n, rest)
  }

  function Pad(s: string, width: nat): string
    decreases width - |s|
  {
    if |s| >= width then s else Pad("0" + s, width)
  }

  lemma DigitBack(d: nat)
    requires d < 16
    ensures DigitValue(DIGITS[d]) == d && !IsSpace(DIGITS[d]) && DIGITS[d] !in {'-', '+', 'x', 'X'}
  {
  }

  lemma SmallSplit(n: nat, base: Base)
    requires n < base
    ensures Split(n, base).1 == n && Times(0, base) == 0
  {
  }

  lemma {:induction false} ReadPrinted(n: nat, base: Base, rest: string)
    ensures ReadDigits(Digits(n, base) + rest, base, 0) == ReadDigits(rest, base, n)
    decreases n
  {
    hide Split, Times, DigitValue;
    var (q, d) := Split(n, base);
    DigitBack(d);
    var tail := [DIGITS[d]] + rest;
    assert tail[0] == DIGITS[d] && tail[1..] == rest;
    if n >= base {
      ReadPrinted(q, base, tail);
      assert Digits(n, base) + rest == Digits(q, base) + tail;
    } else {
      SmallSplit(n, base);
      assert Digits(n, base) + rest == tail;
    }
  }

  lemma {:induction false} ReadPadded(s: string, width: nat, base: Base, rest: string)
    ensures ReadDigits(Pad(s, width) + rest, base, 0) == ReadDigits(s + rest, base, 0)
    decreases width - |s|
  {
    if |s| < width {
      ReadPadded("0" + s, width, base, rest);
      assert ("0" + s + rest)[0] == '0' && ("0" + s + rest)[1..] == s + rest;
    }
  }

  ghost predicate AllDigits(s: string, base: Base) {
    s != "" && forall c | c in s :: DigitValue(c) < base
  }

  lemma {:induction false} DigitsAre(n: nat, base: Base)
    ensures AllDigits(Digits(n, base), base)
    decreases n
  {
    var (q, d) := Split(n, base);
    DigitBack(d);
    if n >= base {
      DigitsAre(q, base);
    }
  }

  lemma {:induction false} PadDigits(s: string, width: nat, base: Base)
    requires AllDigits(s, base)
    ensures AllDigits(Pad(s, width), base) && |Pad(s, width)| >= width
    decreases width - |s|
  {
    if |s| < width {
      assert forall c | c in "0" + s :: c == '0' || c in s;
      PadDigits("0" + s, width, base);
    }
  }

  /** A padded number is read back, up to a character that is no digit. */
  lemma NumberBack(n: nat, base: Base, rest: string)
    requires n <= LONG_MAX && (rest != "" ==> DigitValue(rest[0]) >= base)
    ensures StrToL((if base == 16 then "0x" else "") + Pad(Digits(n, base), 8) + rest, base) == (n, rest)
  {
    hide ReadDigits, Pad, Digits, DigitValue, AllDigits, SkipSpace;
    var p := Pad(Digits(n, base), 8);
    DigitsAre(n, base);
    PadDigits(Digits(n, base), 8, base);
    FirstDigit(p, rest, base);
    ReadPadded(Digits(n, base), 8, base, rest);
    ReadPrinted(n, base, rest);
    NoDigits(rest, base, n);
    if base == 16 {
      var s := "0x" + p + rest;
      assert s[2..] == p + rest && s[2] == p[0];
    } else {
      assert "" + p + rest == p + rest;
    }
  }

  lemma FirstDigit(p: string, rest: string, base: Base)
    requires AllDigits(p, base)
    ensures DigitValue(p[0]) < base && SkipSpace(p + rest) == p + rest && p[0] !in {'-', '+'} && (p + rest)[0] == p[0]
    ensures SkipSpace("0x" + p + rest) == "0x" + p + rest
  {
    assert p[0] in p;
  }

  lemma NoDigits(rest: string, base: Base, n: nat)
    requires rest != "" ==> DigitValue(rest[0]) >= base
    ensures ReadDigits(rest, base, n) == (n, rest)
  {
  }
}
