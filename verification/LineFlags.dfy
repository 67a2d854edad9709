/** Flags written as words of a table, and read back by the directive parsers. */
module LineFlags {
  import opened FileSystem
  import opened Flags
  import opened LineParser

  /** The names of a table whose flags are set. */
  function NamesOf(table: Table, flags: bv32): seq<string> {
    if table == [] then []
    else (if Has(flags, table[0].1) then [table[0].0] else []) + NamesOf(table[1..], flags)
  }

  function Mask(table: Table): bv32 {
    if table == [] then 0 else Plus(table[0].1, Mask(table[1..]))
  }

  /** Each name of the table stands for its flag in the parser's table, and for one bit. */
  ghost predicate Names(table: Table, full: Table) {
    forall i | 0 <= i < |table| :: Flag(full, table[i].0) == table[i].1 && SingleBit(table[i].1)
  }

  /** The flags of the words, added to those there are. */
  function Or(full: Table, ws: seq<string>, flags: bv32): bv32 {
    if ws == [] then flags else Or(full, ws[1..], Plus(flags, Flag(full, ws[0])))
  }

  /** Writing the flags of a table as words and reading the words gives the flags back. */
  lemma {:induction false} OrNames(table: Table, full: Table, f: bv32, flags: bv32)
    requires Names(table, full)
    ensures Or(full, NamesOf(table, f), flags) == Masked(flags, f, Mask(table))
    decreases |table|
  {
    hide Flag, SingleBit, Masked, Or, Has, With, Plus;
    if table == [] {
      OrEnd(full, flags);
      NoMask(flags, f);
    } else {
      var (n, b) := table[0];
      OrNames(table[1..], full, f, With(flags, f, b));
      MaskedNext(flags, f, b, Mask(table[1..]));
      OrNext(full, n, b, NamesOf(table[1..], f), f, flags);
    }
  }

  lemma OrEnd(full: Table, flags: bv32)
    ensures Or(full, [], flags) == flags
  {
    hide Flag, Plus;
  }

  lemma OrNext(full: Table, n: string, b: bv32, ws: seq<string>, f: bv32, flags: bv32)
    requires Flag(full, n) == b
    ensures Or(full, (if Has(f, b) then [n] else []) + ws, flags) == Or(full, ws, With(flags, f, b))
  {
    hide Flag, Has, Plus;
    assert ([n] + ws)[1..] == ws && [] + ws == ws;
  }

  lemma {:induction false} NamesIn(table: Table, f: bv32, n: string) returns (i: nat)
    requires n in NamesOf(table, f)
    ensures i < |table| && table[i].0 == n
    decreases |table|
  {
    hide Has;
    if table[0].0 == n {
      i := 0;
    } else {
      i := NamesIn(table[1..], f, n);
      i := i + 1;
    }
  }

  lemma {:induction false} VerifyOr(ws: seq<string>, flags: bv32, negated: bool)
    requires forall w | w in ws :: Flag(VerifyAttrs(), w) != 0
    ensures VerifyWords(ws, flags, negated) == Some((Or(VerifyAttrs(), ws, flags), negated))
    decreases |ws|
  {
    hide Flag, VerifyAttrs, Plus;
    if ws != [] {
      assert ws[0] in ws && forall w | w in ws[1..] :: w in ws;
      VerifyOr(ws[1..], Plus(flags, Flag(VerifyAttrs(), ws[0])), negated);
    }
  }

  lemma {:induction false} ConfigOr(ws: seq<string>, flags: bv32)
    requires forall w | w in ws :: Flag(ConfigAttrs(), w) != 0
    ensures ConfigWords(ws, flags) == Some(Or(ConfigAttrs(), ws, flags))
    decreases |ws|
  {
    hide Flag, ConfigAttrs, Plus;
    if ws != [] {
      assert ws[0] in ws && forall w | w in ws[1..] :: w in ws;
      ConfigOr(ws[1..], Plus(flags, Flag(ConfigAttrs(), ws[0])));
    }
  }

  // ----- looking names up

  /** The names of a table differ in length or in the character at pos. */
  ghost predicate Keyed(table: Table, pos: nat) {
    && (forall i | 0 <= i < |table| :: |table[i].0| > pos)
    && forall i, j | 0 <= j < i < |table| :: |table[j].0| != |table[i].0| || table[j].0[pos] != table[i].0[pos]
  }

  lemma {:induction false} FlagKeyed(table: Table, pos: nat, i: nat)
    requires Keyed(table, pos) && i < |table|
    ensures Flag(table, table[i].0) == table[i].1
    decreases i
  {
    if i > 0 {
      FlagKeyed(table[1..], pos, i - 1);
    }
  }

  lemma {:induction false} FlagNone(table: Table, w: string)
    requires forall i | 0 <= i < |table| :: table[i].0 != w
    ensures Flag(table, w) == 0
    decreases |table|
  {
    if table != [] {
      FlagNone(table[1..], w);
    }
  }

  /** One name for each verify flag. */
  function VerifyNames(): Table {
    [("filedigest", RPMVERIFY_FILEDIGEST), ("size", RPMVERIFY_FILESIZE), ("link", RPMVERIFY_LINKTO),
     ("user", RPMVERIFY_USER), ("group", RPMVERIFY_GROUP), ("mtime", RPMVERIFY_MTIME), ("mode", RPMVERIFY_MODE),
     ("rdev", RPMVERIFY_RDEV), ("caps", RPMVERIFY_CAPS)]
  }

  const VERIFY_MASK: bv32 := 0x1FF
  const CONFIG_MASK: bv32 := 0x18
  const VIRTUAL_MASK: bv32 := 0x7_09C2

  lemma VerifyKeyed()
    ensures Keyed(VerifyAttrs(), 0)
  {
  }

  lemma ConfigKeyed()
    ensures Keyed(ConfigAttrs(), 0)
  {
  }

  lemma VirtualKeyed()
    ensures Keyed(VirtualAttrs(), 2)
  {
  }

  lemma VerifyFlags()
    ensures forall i | 0 <= i < |VerifyNames()| :: Flag(VerifyAttrs(), VerifyNames()[i].0) == VerifyNames()[i].1
  {
    hide Flag, Keyed;
    VerifyKeyed();
    var t := VerifyAttrs();
    forall i | 0 <= i < |t| ensures Flag(t, t[i].0) == t[i].1 {
      FlagKeyed(t, 0, i);
    }
    var n := VerifyNames();
    assert n[0] == t[1] && n[1] == t[2] && n[2] == t[3] && n[3] == t[4] && n[4] == t[6];
    assert n[5] == t[7] && n[6] == t[8] && n[7] == t[9] && n[8] == t[10];
  }

  lemma TableFlags(t: Table, pos: nat)
    requires Keyed(t, pos)
    ensures forall i | 0 <= i < |t| :: Flag(t, t[i].0) == t[i].1
  {
    hide Flag, Keyed;
    forall i | 0 <= i < |t| ensures Flag(t, t[i].0) == t[i].1 {
      FlagKeyed(t, pos, i);
    }
  }

  lemma VerifyBits()
    ensures forall i | 0 <= i < |VerifyNames()| :: SingleBit(VerifyNames()[i].1)
  {
  }

  lemma ConfigBits()
    ensures forall i | 0 <= i < |ConfigAttrs()| :: SingleBit(ConfigAttrs()[i].1)
  {
  }

  lemma VirtualBits()
    ensures forall i | 0 <= i < |VirtualAttrs()| :: SingleBit(VirtualAttrs()[i].1)
  {
  }
}
