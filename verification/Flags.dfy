/** Sets of flags in a 32-bit word. */
module Flags {

  function And(a: bv32, b: bv32): bv32 {
    a & b
  }

  function Plus(a: bv32, b: bv32): bv32 {
    a | b
  }

  predicate SingleBit(b: bv32) {
    b != 0 && b & (b - 1) == 0
  }

  /** f has no flag outside the mask. */
  predicate Inside(f: bv32, mask: bv32) {
    f & !mask == 0
  }

  predicate Has(flags: bv32, b: bv32) {
    And(flags, b) != 0
  }

  /** flags, and b if f has it. */
  function With(flags: bv32, f: bv32, b: bv32): bv32 {
    if Has(f, b) then Plus(flags, b) else flags
  }

  /** flags, with those of f that the mask lets through. */
  function Masked(flags: bv32, f: bv32, mask: bv32): bv32 {
    Plus(flags, And(f, mask))
  }

  // ----- facts about the bits

  lemma OrPresent(flags: bv32, f: bv32, b: bv32, m: bv32, x: bv32, y: bv32, z: bv32, w: bv32)
    requires f & b == b && x == flags | b && y == f & m && z == b | m && w == f & z
    ensures x | y == flags | w
  {
  }

  lemma OrAbsent(flags: bv32, f: bv32, b: bv32, m: bv32, y: bv32, z: bv32, w: bv32)
    requires f & b == 0 && y == f & m && z == b | m && w == f & z
    ensures flags | y == flags | w
  {
  }

  lemma OneBit(x: bv32, b: bv32)
    requires b != 0 && b & (b - 1) == 0
    ensures x & b == 0 || x & b == b
  {
  }

  lemma Cover(f: bv32, mask: bv32)
    requires f & !mask == 0
    ensures f & mask == f
  {
  }

  lemma Zeros(f: bv32)
    ensures f & 0 == 0 && f | 0 == f && 0 | f == f
  {
  }

  lemma AndIs(a: bv32, b: bv32)
    ensures And(a, b) == a & b
  {
  }

  lemma PlusIs(a: bv32, b: bv32)
    ensures Plus(a, b) == a | b
  {
  }

  lemma EitherBit(a: bv32, c: bv32, b: bv32, x: bv32, p: bv32, q: bv32, r: bv32)
    requires x == a | c && p == x & b && q == a & b && r == c & b
    ensures p != 0 <==> q != 0 || r != 0
  {
  }

  // ----- the same in terms of the functions

  /** A bit of a sum is a bit of one of its parts. */
  lemma HasPlus(a: bv32, c: bv32, b: bv32)
    ensures Has(Plus(a, c), b) <==> Has(a, b) || Has(c, b)
  {
    hide And, Plus;
    PlusIs(a, c);
    AndIs(Plus(a, c), b);
    AndIs(a, b);
    AndIs(c, b);
    EitherBit(a, c, b, Plus(a, c), And(Plus(a, c), b), And(a, b), And(c, b));
  }

  lemma HasNone(b: bv32)
    ensures !Has(0, b)
  {
  }

  /** For a word of one bit, having the bit in the negation is not having it. */
  lemma HasNot(a: bv32, b: bv32)
    requires SingleBit(b)
    ensures Has(!a, b) <==> !Has(a, b)
  {
    hide And;
    AndIs(a, b);
    AndIs(!a, b);
    NotBit(a, b);
  }

  lemma NotBit(a: bv32, b: bv32)
    requires b != 0 && b & (b - 1) == 0
    ensures !a & b != 0 <==> a & b == 0
  {
  }

  /** For a word of one bit, having the bit under a mask is having it on both sides. */
  lemma HasAnd(a: bv32, m: bv32, b: bv32)
    requires SingleBit(b)
    ensures Has(And(a, m), b) <==> Has(a, b) && Has(m, b)
  {
    hide And;
    AndIs(a, m);
    AndIs(And(a, m), b);
    AndIs(a, b);
    AndIs(m, b);
    BothBits(a, m, b, And(a, m));
  }

  lemma BothBits(a: bv32, m: bv32, b: bv32, x: bv32)
    requires b != 0 && b & (b - 1) == 0 && x == a & m
    ensures x & b != 0 <==> a & b != 0 && m & b != 0
  {
  }

  lemma NoMask(flags: bv32, f: bv32)
    ensures Masked(flags, f, 0) == flags
  {
    hide And, Plus;
    Zeros(f);
    Zeros(flags);
    AndIs(f, 0);
    PlusIs(flags, 0);
  }

  lemma PlusNone(flags: bv32)
    ensures Plus(flags, 0) == flags && Plus(0, flags) == flags
  {
    hide And, Plus;
    Zeros(flags);
    PlusIs(flags, 0);
    PlusIs(0, flags);
  }

  /** A mask that covers f hides nothing of it. */
  lemma MaskedAll(flags: bv32, f: bv32, mask: bv32)
    requires Inside(f, mask)
    ensures Masked(flags, f, mask) == Plus(flags, f)
  {
    hide And, Plus;
    Cover(f, mask);
    AndIs(f, mask);
  }

  /** One more bit in the mask lets that bit through. */
  lemma MaskedNext(flags: bv32, f: bv32, b: bv32, m: bv32)
    requires SingleBit(b)
    ensures Masked(With(flags, f, b), f, m) == Masked(flags, f, Plus(b, m))
  {
    hide And, Plus, SingleBit;
    Bit(f, b);
    if Has(f, b) {
      Present(flags, f, b, m);
    } else {
      Absent(flags, f, b, m);
    }
  }

  lemma Bit(x: bv32, b: bv32)
    requires SingleBit(b)
    ensures b != 0 && (And(x, b) == 0 || And(x, b) == b)
  {
    hide And;
    OneBit(x, b);
    AndIs(x, b);
  }

  lemma Present(flags: bv32, f: bv32, b: bv32, m: bv32)
    requires And(f, b) == b
    ensures Plus(Plus(flags, b), And(f, m)) == Plus(flags, And(f, Plus(b, m)))
  {
    hide And, Plus;
    AndIs(f, b);
    PlusIs(flags, b);
    AndIs(f, m);
    PlusIs(b, m);
    AndIs(f, Plus(b, m));
    OrPresent(flags, f, b, m, Plus(flags, b), And(f, m), Plus(b, m), And(f, Plus(b, m)));
    PlusIs(Plus(flags, b), And(f, m));
    PlusIs(flags, And(f, Plus(b, m)));
  }

  lemma Absent(flags: bv32, f: bv32, b: bv32, m: bv32)
    requires And(f, b) == 0
    ensures Plus(flags, And(f, m)) == Plus(flags, And(f, Plus(b, m)))
  {
    hide And, Plus;
    AndIs(f, b);
    AndIs(f, m);
    PlusIs(b, m);
    AndIs(f, Plus(b, m));
    OrAbsent(flags, f, b, m, And(f, m), Plus(b, m), And(f, Plus(b, m)));
    PlusIs(flags, And(f, m));
    PlusIs(flags, And(f, Plus(b, m)));
  }
}
