/** CRC32C of crc32c.cc over the table-driven engine of crc.cc. The polynomial is that of section 12.1 of RFC 3720. */
module Crc32c {

  const POLY: bv32 := 0x82f63b78
  const ALL: bv32 := 0xffffffff

  const PREFETCH_HORIZON := 256
  /** The polynomial 1: the highest bit is the constant term. */
  const ONE: bv32 := 0x80000000

  // ----- words -----

  function Xor(a: bv32, b: bv32): bv32 { a ^ b }

  function Word(b: bv8): bv32 { b as bv32 }

  predicate Odd(s: bv32) { s & 1 == 1 }

  function Half(s: bv32): bv32 { s >> 1 }

  lemma XorComm(a: bv32, b: bv32)
    ensures Xor(a, b) == Xor(b, a)
  {}

  lemma RawXorAssoc(a: bv32, b: bv32, c: bv32)
    ensures (a ^ b) ^ c == a ^ (b ^ c)
  {}

  lemma XorAssoc(a: bv32, b: bv32, c: bv32)
    ensures Xor(Xor(a, b), c) == Xor(a, Xor(b, c))
  {
    RawXorAssoc(a, b, c);
  }

  lemma XorZero(a: bv32)
    ensures Xor(a, 0) == a && Xor(a, a) == 0
  {}

  lemma XorSwap(a: bv32, b: bv32, c: bv32, d: bv32)
    ensures Xor(Xor(a, b), Xor(c, d)) == Xor(Xor(a, c), Xor(b, d))
  {
    hide Xor;
    XorAssoc(a, b, Xor(c, d));
    XorAssoc(b, c, d);
    XorComm(b, c);
    XorAssoc(c, b, d);
    XorAssoc(a, c, Xor(b, d));
  }

  lemma XorUndo(a: bv32, b: bv32)
    ensures Xor(Xor(a, b), b) == a
  {
    hide Xor;
    XorAssoc(a, b, b);
    XorZero(a);
    XorZero(b);
  }

  lemma OddXor(a: bv32, b: bv32)
    ensures Odd(Xor(a, b)) <==> Odd(a) != Odd(b)
  {}

  lemma RawHalfXor(a: bv32, b: bv32)
    ensures (a ^ b) >> 1 == (a >> 1) ^ (b >> 1)
  {}

  lemma HalfXor(a: bv32, b: bv32)
    ensures Half(Xor(a, b)) == Xor(Half(a), Half(b))
  {
    RawHalfXor(a, b);
  }

  lemma ZeroWord()
    ensures !Odd(0) && Half(0) == 0
  {}

  // ----- one bit at a time -----

  /** Advance by one zero bit: multiply by x and reduce. */
  function Bit(poly: bv32, s: bv32): bv32 {
    if Odd(s) then Xor(Half(s), poly) else Half(s)
  }

  function Bits(poly: bv32, n: nat, s: bv32): bv32 {
    if n == 0 then s else Bit(poly, Bits(poly, n - 1, s))
  }

  lemma BitIsLinear(poly: bv32, a: bv32, b: bv32)
    ensures Bit(poly, Xor(a, b)) == Xor(Bit(poly, a), Bit(poly, b))
  {
    hide Xor, Odd, Half;
    OddXor(a, b);
    HalfXor(a, b);
    var p, q := Half(a), Half(b);
    XorAssoc(p, q, poly);
    XorComm(q, poly);
    XorAssoc(p, poly, q);
    XorSwap(p, poly, q, poly);
    XorZero(poly);
    XorZero(Xor(p, q));
  }

  lemma {:induction false} BitsAreLinear(poly: bv32, n: nat, a: bv32, b: bv32)
    ensures Bits(poly, n, Xor(a, b)) == Xor(Bits(poly, n, a), Bits(poly, n, b))
  {
    hide Xor, Bit;
    if n > 0 {
      BitsAreLinear(poly, n - 1, a, b);
      BitIsLinear(poly, Bits(poly, n - 1, a), Bits(poly, n - 1, b));
    }
  }

  lemma {:induction false} BitsOfZero(poly: bv32, n: nat)
    ensures Bits(poly, n, 0) == 0
  {
    hide Odd, Half, Xor;
    ZeroWord();
    if n > 0 {
      BitsOfZero(poly, n - 1);
    }
  }

  lemma {:induction false} BitsAdd(poly: bv32, m: nat, n: nat, s: bv32)
    ensures Bits(poly, m + n, s) == Bits(poly, m, Bits(poly, n, s))
  {
    hide Bit;
    if m > 0 {
      BitsAdd(poly, m - 1, n, s);
    }
  }

  // ----- what the engine computes: one byte at a time -----

  function Byte(crc: bv32, b: bv8): bv32 {
    Bits(POLY, 8, Xor(crc, Word(b)))
  }

  function Extended(crc: bv32, bytes: seq<bv8>): bv32 {
    if bytes == [] then crc
    else Byte(Extended(crc, bytes[..|bytes| - 1]), bytes[|bytes| - 1])
  }

  function Zeroes(n: nat): seq<bv8> {
    seq(n, _ => 0)
  }

  /** The entry of the one-byte table for c. */
  function Table0(poly: bv32, c: bv8): bv32 {
    Bits(poly, 8, Word(c))
  }

  function LowByte(s: bv32): bv8 { (s & 0xff) as bv8 }

  /** Where the table is looked up for the next byte. */
  function Index(l: bv32, b: bv8): bv8 { LowByte(l) ^ b }

  function ShiftByte(s: bv32): bv32 { s >> 8 }

  function HighBytes(s: bv32): bv32 { s & 0xffffff00 }

  lemma LowAndHigh(s: bv32)
    ensures Xor(Word(LowByte(s)), HighBytes(s)) == s
    ensures ShiftByte(HighBytes(s)) == ShiftByte(s)
    ensures HighBytes(s) & 0xff == 0
  {}

  lemma LookupIndex(l: bv32, b: bv8)
    ensures LowByte(Xor(l, Word(b))) == Index(l, b)
    ensures ShiftByte(Xor(l, Word(b))) == ShiftByte(l)
  {}

  lemma EvenBits(s: bv32)
    requires s & 0xff == 0
    ensures !Odd(s) && !Odd(s >> 1) && !Odd(s >> 2) && !Odd(s >> 3)
    ensures !Odd(s >> 4) && !Odd(s >> 5) && !Odd(s >> 6) && !Odd(s >> 7)
    ensures Half(s) == s >> 1 && Half(s >> 1) == s >> 2 && Half(s >> 2) == s >> 3 && Half(s >> 3) == s >> 4
    ensures Half(s >> 4) == s >> 5 && Half(s >> 5) == s >> 6 && Half(s >> 6) == s >> 7 && Half(s >> 7) == s >> 8
  {}

  lemma ShiftedOutBytes(poly: bv32, s: bv32)
    requires s & 0xff == 0
    ensures Bits(poly, 8, s) == ShiftByte(s)
  {
    EvenBits(s);
    hide Odd, Half, Xor;
    assert Bits(poly, 1, s) == s >> 1;
    assert Bits(poly, 2, s) == s >> 2;
    assert Bits(poly, 3, s) == s >> 3;
    assert Bits(poly, 4, s) == s >> 4;
    assert Bits(poly, 5, s) == s >> 5;
    assert Bits(poly, 6, s) == s >> 6;
    assert Bits(poly, 7, s) == s >> 7;
  }

  /** A table lookup and a shift advance by a whole byte. */
  lemma TableStep(poly: bv32, s: bv32)
    ensures Xor(Table0(poly, LowByte(s)), ShiftByte(s)) == Bits(poly, 8, s)
  {
    hide Bits, Xor, LowByte, ShiftByte, HighBytes, Word;
    LowAndHigh(s);
    BitsAreLinear(poly, 8, Word(LowByte(s)), HighBytes(s));
    ShiftedOutBytes(poly, HighBytes(s));
  }

  // ----- four words at a time -----

  function Shl8(s: bv32): bv32 { s << 8 }

  /** A byte below three others. */
  function Above(b: bv8, rest: bv32): bv32 { Xor(Word(b), Shl8(rest)) }

  /** Four bytes as a little-endian word. */
  function Load32(bytes: seq<bv8>): bv32
    requires |bytes| == 4
  {
    Above(bytes[0], Above(bytes[1], Above(bytes[2], Word(bytes[3]))))
  }

  function ByteAt(s: bv32, k: nat): bv8 {
    if k == 0 then LowByte(s) else if k == 1 then LowByte(s >> 8) else if k == 2 then LowByte(s >> 16) else LowByte(s >> 24)
  }

  lemma WordOfBytes(s: bv32)
    ensures s == Above(ByteAt(s, 0), Above(ByteAt(s, 1), Above(ByteAt(s, 2), Word(ByteAt(s, 3)))))
  {}

  /** The top byte is clear. */
  predicate IsShort(s: bv32) { s & 0xff000000 == 0 }

  lemma RawShl8(s: bv32)
    requires s & 0xff000000 == 0
    ensures (s << 8) >> 8 == s && (s << 8) & 0xff == 0
  {}

  lemma BytesAreShort(a: bv8, b: bv8, c: bv8)
    ensures IsShort(Word(c)) && IsShort(Above(b, Word(c))) && IsShort(Above(a, Above(b, Word(c))))
  {}

  lemma ShortShiftsOut(n: nat, s: bv32)
    requires IsShort(s)
    ensures Bits(POLY, n + 8, Shl8(s)) == Bits(POLY, n, s)
  {
    RawShl8(s);
    ShiftedOutBytes(POLY, Shl8(s));
    hide Shl8, Bits;
    BitsAdd(POLY, n, 8, Shl8(s));
  }

  lemma AboveShiftsOut(n: nat, b: bv8, rest: bv32)
    requires IsShort(rest)
    ensures Bits(POLY, n + 8, Above(b, rest)) == Xor(Bits(POLY, n + 8, Word(b)), Bits(POLY, n, rest))
  {
    hide Shl8, Bits, Xor, Word, IsShort;
    BitsAreLinear(POLY, n + 8, Word(b), Shl8(rest));
    ShortShiftsOut(n, rest);
  }

  /** Bringing in a word is bringing in its first byte and then the others. */
  lemma FirstByte(n: nat, l: bv32, b: bv8, rest: bv32)
    requires IsShort(rest)
    ensures Bits(POLY, n + 8, Xor(l, Above(b, rest))) == Bits(POLY, n, Xor(Byte(l, b), rest))
  {
    hide Shl8, Bits, Xor, Word, IsShort;
    XorAssoc(l, Word(b), Shl8(rest));
    BitsAreLinear(POLY, n + 8, Xor(l, Word(b)), Shl8(rest));
    BitsAdd(POLY, n, 8, Xor(l, Word(b)));
    ShortShiftsOut(n, rest);
    BitsAreLinear(POLY, n, Byte(l, b), rest);
  }

  /** The state after a whole word. */
  function Fold(l: bv32, w: bv32): bv32 {
    Bits(POLY, 32, Xor(l, w))
  }

  lemma OneByteMore(l: bv32, bytes: seq<bv8>)
    requires bytes != []
    ensures Extended(l, bytes) == Extended(Byte(l, bytes[0]), bytes[1..])
  {
    hide Byte;
    ExtendedInParts(l, [bytes[0]], bytes[1..]);
    assert bytes == [bytes[0]] + bytes[1..];
    assert Extended(l, [bytes[0]]) == Byte(Extended(l, []), bytes[0]);
  }

  lemma WordAtOnce(l: bv32, bytes: seq<bv8>)
    requires |bytes| == 4
    ensures Extended(l, bytes) == Fold(l, Load32(bytes))
  {
    hide Byte, Bits, Xor, Word, IsShort, Above, Extended;
    BytesAreShort(bytes[1], bytes[2], bytes[3]);
    var l1 := Byte(l, bytes[0]);
    var l2 := Byte(l1, bytes[1]);
    var l3 := Byte(l2, bytes[2]);
    FirstByte(24, l, bytes[0], Above(bytes[1], Above(bytes[2], Word(bytes[3]))));
    FirstByte(16, l1, bytes[1], Above(bytes[2], Word(bytes[3])));
    FirstByte(8, l2, bytes[2], Word(bytes[3]));
    LastByte(l3, bytes[3]);
    OneByteMore(l, bytes);
    OneByteMore(l1, bytes[1..]);
    OneByteMore(l2, bytes[2..]);
    OneByteMore(l3, bytes[3..]);
    assert bytes[1..][1..] == bytes[2..] && bytes[2..][1..] == bytes[3..] && bytes[3..][1..] == [];
    NothingExtends(Byte(l3, bytes[3]));
  }

  lemma LastByte(l: bv32, b: bv8)
    ensures Byte(l, b) == Bits(POLY, 8, Xor(l, Word(b)))
  {}

  lemma NothingExtends(l: bv32)
    ensures Extended(l, []) == l
  {}

  /** The table for the byte at position 3 - j of a word that is followed by twelve zero bytes. */
  function WordTable(j: nat, c: bv8): bv32 {
    Bits(POLY, 104 + 8 * j, Word(c))
  }

  function StepSwath(s: bv32, word: bv32): bv32 {
    Xor(Xor(Xor(Xor(word, WordTable(3, ByteAt(s, 0))), WordTable(2, ByteAt(s, 1))), WordTable(1, ByteAt(s, 2))),
        WordTable(0, ByteAt(s, 3)))
  }

  /** One step takes a word past sixteen bytes and adds the next one. */
  lemma SwathStep(s: bv32, word: bv32)
    ensures StepSwath(s, word) == Xor(word, Bits(POLY, 128, s))
  {
    hide Bits, Xor, Word, IsShort, Above, ByteAt;
    var c0, c1, c2, c3 := ByteAt(s, 0), ByteAt(s, 1), ByteAt(s, 2), ByteAt(s, 3);
    WordOfBytes(s);
    BytesAreShort(c1, c2, c3);
    AboveShiftsOut(120, c0, Above(c1, Above(c2, Word(c3))));
    AboveShiftsOut(112, c1, Above(c2, Word(c3)));
    AboveShiftsOut(104, c2, Word(c3));
    var t0, t1, t2, t3 := WordTable(3, c0), WordTable(2, c1), WordTable(1, c2), WordTable(0, c3);
    assert Bits(POLY, 128, s) == Xor(t0, Xor(t1, Xor(t2, t3)));
    XorAssoc(t1, t2, t3);
    XorAssoc(t0, Xor(t1, t2), t3);
    XorAssoc(t0, t1, t2);
    XorAssoc(word, Xor(Xor(t0, t1), t2), t3);
    XorAssoc(word, Xor(t0, t1), t2);
    XorAssoc(word, t0, t1);
  }

  /** The four buffers stand for the state after their words, from a state of zero. */
  function Combined(b0: bv32, b1: bv32, b2: bv32, b3: bv32): bv32 {
    Fold(Fold(Fold(Fold(0, b0), b1), b2), b3)
  }

  lemma FoldSplits(l: bv32, m: bv32, w: bv32)
    ensures Fold(Xor(l, m), w) == Xor(Bits(POLY, 32, l), Fold(m, w))
  {
    hide Bits, Xor;
    XorAssoc(l, m, w);
    BitsAreLinear(POLY, 32, l, Xor(m, w));
  }

  /** The oldest buffer, taken past sixteen bytes, goes on behind the others. */
  lemma Rotates(b0: bv32, b1: bv32, b2: bv32, b3: bv32, word: bv32)
    ensures Combined(b1, b2, b3, StepSwath(b0, word)) == Fold(Combined(b0, b1, b2, b3), word)
  {
    hide Bits, Xor, Fold, StepSwath;
    SwathStep(b0, word);
    var a0 := Fold(0, b0);
    var s1, s2, s3 := Fold(0, b1), Fold(Fold(0, b1), b2), Fold(Fold(Fold(0, b1), b2), b3);
    FoldZero(b0);
    // With b0 in front, each of the states has b0 moved along beside it.
    MovedAlong(a0, 0, b1, 32, b0);
    MovedAlong(Fold(a0, b1), s1, b2, 64, b0);
    MovedAlong(Fold(Fold(a0, b1), b2), s2, b3, 96, b0);
    MovedAlong(Combined(b0, b1, b2, b3), s3, word, 128, b0);
    FoldLate(s3, word, Bits(POLY, 128, b0));
    BitsAdd(POLY, 32, 128, b0);
  }

  lemma FoldZero(b: bv32)
    ensures Fold(0, b) == Xor(Bits(POLY, 32, b), 0)
  {
    hide Bits, Xor;
    XorComm(0, b);
    XorZero(b);
    XorZero(Bits(POLY, 32, b));
  }

  lemma MovedAlong(l: bv32, m: bv32, w: bv32, n: nat, b: bv32)
    requires l == Xor(Bits(POLY, n, b), m)
    ensures Fold(l, w) == Xor(Bits(POLY, n + 32, b), Fold(m, w))
  {
    hide Bits, Xor, Fold;
    FoldSplits(Bits(POLY, n, b), m, w);
    BitsAdd(POLY, 32, n, b);
  }

  lemma FoldLate(l: bv32, word: bv32, a: bv32)
    ensures Fold(l, Xor(word, a)) == Xor(Bits(POLY, 32, a), Fold(l, word))
  {
    hide Bits, Xor;
    XorAssoc(l, word, a);
    BitsAreLinear(POLY, 32, Xor(l, word), a);
    XorComm(Fold(l, word), Bits(POLY, 32, a));
  }

  lemma NextWord(crc: bv32, bytes: seq<bv8>, p: nat, b0: bv32, b1: bv32, b2: bv32, b3: bv32)
    requires p + 4 <= |bytes| && Combined(b0, b1, b2, b3) == Extended(crc, bytes[..p])
    ensures Combined(b1, b2, b3, StepSwath(b0, Load32(bytes[p..p + 4]))) == Extended(crc, bytes[..p + 4])
  {
    hide Combined, StepSwath, Fold, Extended, Load32;
    Rotates(b0, b1, b2, b3, Load32(bytes[p..p + 4]));
    WordAtOnce(Extended(crc, bytes[..p]), bytes[p..p + 4]);
    ExtendedInParts(crc, bytes[..p], bytes[p..p + 4]);
    assert bytes[..p] + bytes[p..p + 4] == bytes[..p + 4];
  }

  lemma FirstWords(crc: bv32, bytes: seq<bv8>, p: nat, l: bv32)
    requires p + 16 <= |bytes| && l == Extended(crc, bytes[..p])
    ensures Combined(Xor(Load32(bytes[p..p + 4]), l), Load32(bytes[p + 4..p + 8]), Load32(bytes[p + 8..p + 12]),
                     Load32(bytes[p + 12..p + 16]))
         == Extended(crc, bytes[..p + 16])
  {
    hide Extended, Load32, Bits, Xor;
    var w := Load32(bytes[p..p + 4]);
    assert Fold(0, Xor(w, l)) == Fold(l, w) by {
      XorComm(0, Xor(w, l));
      XorZero(Xor(w, l));
      XorComm(l, w);
    }
    hide Fold;
    OneWordMore(crc, bytes, p);
    OneWordMore(crc, bytes, p + 4);
    OneWordMore(crc, bytes, p + 8);
    OneWordMore(crc, bytes, p + 12);
  }

  lemma OneWordMore(crc: bv32, bytes: seq<bv8>, p: nat)
    requires p + 4 <= |bytes|
    ensures Extended(crc, bytes[..p + 4]) == Fold(Extended(crc, bytes[..p]), Load32(bytes[p..p + 4]))
  {
    hide Fold, Extended, Load32;
    WordAtOnce(Extended(crc, bytes[..p]), bytes[p..p + 4]);
    ExtendedInParts(crc, bytes[..p], bytes[p..p + 4]);
    assert bytes[..p] + bytes[p..p + 4] == bytes[..p + 4];
  }

  /** Four lookups bring in a whole word. */
  method CombineOneWord(table0: seq<bv32>, crcIn: bv32, word: bv32) returns (w: bv32)
    requires IsTable(POLY, table0, 8)
    ensures w == Fold(crcIn, word)
  {
    TableHas256(POLY, table0, 8);
    hide Bits, Xor, LowByte, ShiftByte, IsTable, Lookup;
    w := Xor(crcIn, word);
    ghost var start := w;
    NoBits(POLY, start);
    for i := 0 to 4
      invariant w == Bits(POLY, 8 * i, start)
    {
      TableStep(POLY, w);
      BitsAdd(POLY, 8, 8 * i, start);
      LookupIs(POLY, table0, 8, LowByte(w));
      XorComm(Lookup(table0, LowByte(w)), ShiftByte(w));
      w := Xor(ShiftByte(w), Lookup(table0, LowByte(w)));
    }
  }

  method StepBytes(table0: seq<bv32>, ghost crc: bv32, bytes: seq<bv8>, from: nat, to: nat, l0: bv32) returns (l: bv32)
    requires IsTable(POLY, table0, 8)
    requires from <= to <= |bytes| && l0 == Extended(crc, bytes[..from])
    ensures l == Extended(crc, bytes[..to])
  {
    TableHas256(POLY, table0, 8);
    hide Bits, Xor, LowByte, ShiftByte, Index, Word, IsTable, Lookup;
    l := l0;
    for p := from to to
      invariant l == Extended(crc, bytes[..p])
    {
      assert bytes[..p + 1][..p] == bytes[..p];
      TableStep(POLY, Xor(l, Word(bytes[p])));
      LookupIndex(l, bytes[p]);
      LookupIs(POLY, table0, 8, Index(l, bytes[p]));
      l := Xor(Lookup(table0, Index(l, bytes[p])), ShiftByte(l));
    }
  }

  /** One step of a buffer, with the four tables. */
  method SwathFrom(table: seq<seq<bv32>>, s: bv32, word: bv32) returns (r: bv32)
    requires IsWordTable(table)
    ensures r == StepSwath(s, word)
  {
    forall j | 0 <= j < 4 ensures |table[j]| == 256 {
      TableHas256(POLY, table[j], 104 + 8 * j);
    }
    hide IsTable, Bits, Xor, ByteAt, Word, Lookup;
    LookupIs(POLY, table[3], 128, ByteAt(s, 0));
    LookupIs(POLY, table[2], 120, ByteAt(s, 1));
    LookupIs(POLY, table[1], 112, ByteAt(s, 2));
    LookupIs(POLY, table[0], 104, ByteAt(s, 3));
    r := Xor(Xor(Xor(Xor(word, Lookup(table[3], ByteAt(s, 0))), Lookup(table[2], ByteAt(s, 1))),
                 Lookup(table[1], ByteAt(s, 2))), Lookup(table[0], ByteAt(s, 3)));
  }

  /** A whole stride: every buffer takes its next word. */
  method StepStride(table: seq<seq<bv32>>, ghost crc: bv32, bytes: seq<bv8>, p: nat, b0: bv32, b1: bv32, b2: bv32, b3: bv32)
    returns (c0: bv32, c1: bv32, c2: bv32, c3: bv32)
    requires IsWordTable(table)
    requires p + 16 <= |bytes| && Combined(b0, b1, b2, b3) == Extended(crc, bytes[..p])
    ensures Combined(c0, c1, c2, c3) == Extended(crc, bytes[..p + 16])
  {
    hide Combined, StepSwath, Extended, Load32, IsWordTable;
    c0 := SwathFrom(table, b0, Load32(bytes[p..p + 4]));
    c1 := SwathFrom(table, b1, Load32(bytes[p + 4..p + 8]));
    c2 := SwathFrom(table, b2, Load32(bytes[p + 8..p + 12]));
    c3 := SwathFrom(table, b3, Load32(bytes[p + 12..p + 16]));
    NextWord(crc, bytes, p, b0, b1, b2, b3);
    NextWord(crc, bytes, p + 4, b1, b2, b3, c0);
    NextWord(crc, bytes, p + 8, b2, b3, c0, c1);
    NextWord(crc, bytes, p + 12, b3, c0, c1, c2);
  }

  /** skew is how far the first byte lies before the next address that words are loaded from. */
  method Extend(engine: Engine, crc: bv32, bytes: seq<bv8>, skew: nat) returns (l: bv32)
    requires engine.Valid()
    ensures l == Extended(crc, bytes)
  {
    hide Combined, StepSwath, Extended, Load32, Fold, Xor, IsTable, IsWordTable, IsZeroesTable, UnextendPoly;
    l := crc;
    var p := 0;
    NothingExtends(crc);
    assert bytes[..0] == [];
    if skew <= |bytes| {
      l := StepBytes(engine.table0, crc, bytes, p, skew, l);
      p := skew;
    }
    if |bytes| - p >= 16 {
      FirstWords(crc, bytes, p, l);
      var b0 := Xor(Load32(bytes[p..p + 4]), l);
      var b1 := Load32(bytes[p + 4..p + 8]);
      var b2 := Load32(bytes[p + 8..p + 12]);
      var b3 := Load32(bytes[p + 12..p + 16]);
      p := p + 16;
      while |bytes| - p > PREFETCH_HORIZON
        invariant p <= |bytes| && Combined(b0, b1, b2, b3) == Extended(crc, bytes[..p])
      {
        b0, b1, b2, b3 := StepStride(engine.table, crc, bytes, p, b0, b1, b2, b3);
        b0, b1, b2, b3 := StepStride(engine.table, crc, bytes, p + 16, b0, b1, b2, b3);
        b0, b1, b2, b3 := StepStride(engine.table, crc, bytes, p + 32, b0, b1, b2, b3);
        b0, b1, b2, b3 := StepStride(engine.table, crc, bytes, p + 48, b0, b1, b2, b3);
        p := p + 64;
      }
      while |bytes| - p >= 16
        invariant p <= |bytes| && Combined(b0, b1, b2, b3) == Extended(crc, bytes[..p])
      {
        b0, b1, b2, b3 := StepStride(engine.table, crc, bytes, p, b0, b1, b2, b3);
        p := p + 16;
      }
      while |bytes| - p >= 4
        invariant p <= |bytes| && Combined(b0, b1, b2, b3) == Extended(crc, bytes[..p])
      {
        NextWord(crc, bytes, p, b0, b1, b2, b3);
        var next := SwathFrom(engine.table, b0, Load32(bytes[p..p + 4]));
        b0, b1, b2, b3 := b1, b2, b3, next;
        p := p + 4;
      }
      CombinedIs(b0, b1, b2, b3);
      l := CombineOneWord(engine.table0, 0, b0);
      l := CombineOneWord(engine.table0, l, b1);
      l := CombineOneWord(engine.table0, l, b2);
      l := CombineOneWord(engine.table0, l, b3);
    }
    l := StepBytes(engine.table0, crc, bytes, p, |bytes|, l);
    assert bytes[..|bytes|] == bytes;
  }

  lemma CombinedIs(b0: bv32, b1: bv32, b2: bv32, b3: bv32)
    ensures Combined(b0, b1, b2, b3) == Fold(Fold(Fold(Fold(0, b0), b1), b2), b3)
  {}

  // ----- multiplying polynomials -----

  /** The polynomial x^k while k < 32: the k-th bit from the top. */
  function One(k: nat): bv32 {
    if k == 0 then ONE else Half(One(k - 1))
  }

  lemma OneRunsOut()
    ensures One(32) == 0
  {
    assert One(8) == 0x800000;
    assert One(16) == 0x8000;
    assert One(24) == 0x80;
  }

  /** The sum of x^i * m over the first k coefficients of l that are set. */
  function Product(poly: bv32, l: bv32, m: bv32, k: nat): bv32 {
    if k == 0 then 0
    else Xor(Product(poly, l, m, k - 1), if Has(l, One(k - 1)) then Bits(poly, k - 1, m) else 0)
  }

  predicate Has(l: bv32, one: bv32) { l & one != 0 }

  method PolyMultiply(val: bv32, m0: bv32, poly: bv32) returns (result: bv32)
    ensures result == Product(poly, val, m0, 32)
  {
    hide Xor, Half, Bit, Has;
    var l, m := val, m0;
    result := 0;
    var one := ONE;
    ghost var k := 0;
    OneRunsOut();
    while one != 0
      invariant k <= 32 && one == One(k) && m == Bits(poly, k, m0)
      invariant result == Product(poly, val, m0, k)
      decreases 32 - k
    {
      XorZero(result);
      if Has(l, one) {
        result := Xor(result, m);
      }
      m := Bit(poly, m);
      one := Half(one);
      k := k + 1;
    }
    NothingLeft(poly, val, m0, k, 32);
  }

  lemma NothingHas(l: bv32)
    ensures !Has(l, 0)
  {}

  lemma {:induction false} NothingLeft(poly: bv32, l: bv32, m: bv32, k: nat, n: nat)
    requires k <= n && One(k) == 0
    ensures One(n) == 0 && Product(poly, l, m, n) == Product(poly, l, m, k)
    decreases n
  {
    hide Xor, Half, Has;
    if k < n {
      NothingLeft(poly, l, m, k, n - 1);
      ZeroWord();
      NothingHas(l);
      XorZero(Product(poly, l, m, n - 1));
    }
  }

  // ----- a product with x^n is n steps of one bit -----

  function Masked(l: bv32, mask: bv32): bv32 { l & mask }

  function Or(a: bv32, b: bv32): bv32 { a | b }

  /** The coefficients before the k-th. */
  function Mask(k: nat): bv32 {
    if k == 0 then 0 else Or(Mask(k - 1), One(k - 1))
  }

  predicate IsSingle(o: bv32) { o != 0 && o & (o - 1) == 0 }

  predicate Precedes(mask: bv32, o: bv32) { mask == 0 - (o << 1) }

  lemma SingleStep(mask: bv32, o: bv32)
    requires IsSingle(o) && Precedes(mask, o)
    ensures Half(o) == 0 ==> Or(mask, o) == ALL
    ensures Half(o) != 0 ==> IsSingle(Half(o)) && Precedes(Or(mask, o), Half(o)) && !Odd(o)
  {}

  lemma MaskedStep(l: bv32, mask: bv32, o: bv32)
    requires IsSingle(o) && Precedes(mask, o)
    ensures Xor(Masked(l, mask), if Has(l, o) then o else 0) == Masked(l, Or(mask, o))
  {
    RawSingle(l, o);
    RawApart(mask, o);
    RawJoined(l, mask, o);
  }

  lemma RawSingle(l: bv32, o: bv32)
    requires o & (o - 1) == 0
    ensures l & o == 0 || l & o == o
  {}

  lemma RawApart(mask: bv32, o: bv32)
    requires o & (o - 1) == 0 && mask == 0 - (o << 1)
    ensures mask & o == 0
  {}

  lemma RawJoined(l: bv32, mask: bv32, o: bv32)
    requires mask & o == 0
    ensures (l & mask) ^ (l & o) == l & (mask | o)
  {}

  lemma FirstSingle()
    ensures IsSingle(ONE) && Precedes(0, ONE)
  {}

  lemma MaskEnds(l: bv32)
    ensures Or(ALL, 0) == ALL && Masked(l, ALL) == l && Masked(l, 0) == 0
  {}

  lemma {:induction false} CoefficientsAreSingle(poly: bv32, k: nat)
    ensures One(k) != 0 ==> IsSingle(One(k)) && Precedes(Mask(k), One(k)) && Bits(poly, k, ONE) == One(k)
    ensures One(k) == 0 ==> Mask(k) == ALL
  {
    FirstSingle();
    MaskEnds(0);
    ZeroWord();
    hide Half, Xor, Or, Odd, IsSingle, Precedes;
    if k > 0 {
      CoefficientsAreSingle(poly, k - 1);
      if One(k - 1) != 0 {
        SingleStep(Mask(k - 1), One(k - 1));
      }
    }
  }

  /** Multiplying by 1 gives back the polynomial. */
  lemma {:induction false} ProductWithOne(poly: bv32, l: bv32, k: nat)
    ensures Product(poly, l, ONE, k) == Masked(l, Mask(k))
  {
    hide Xor, Or, Has, Masked, IsSingle, Precedes, Half, Bits;
    MaskEnds(l);
    if k > 0 {
      ProductWithOne(poly, l, k - 1);
      CoefficientsAreSingle(poly, k - 1);
      if One(k - 1) != 0 {
        MaskedStep(l, Mask(k - 1), One(k - 1));
      } else {
        NothingHas(l);
        XorZero(Masked(l, ALL));
      }
    }
  }

  lemma {:induction false} ProductCommutesWithBits(poly: bv32, l: bv32, n: nat, m: bv32, k: nat)
    ensures Product(poly, l, Bits(poly, n, m), k) == Bits(poly, n, Product(poly, l, m, k))
  {
    hide Xor, Has, One;
    if k == 0 {
      BitsOfZero(poly, n);
    } else {
      hide Bits;
      ProductCommutesWithBits(poly, l, n, m, k - 1);
      BitsAdd(poly, k - 1, n, m);
      BitsAdd(poly, n, k - 1, m);
      BitsOfZero(poly, n);
      BitsAreLinear(poly, n, Product(poly, l, m, k - 1),
                    if Has(l, One(k - 1)) then Bits(poly, k - 1, m) else 0);
    }
  }

  /** The polynomial x^n. */
  function Power(poly: bv32, n: nat): bv32 {
    Bits(poly, n, ONE)
  }

  lemma ProductWithPower(poly: bv32, l: bv32, n: nat)
    ensures Product(poly, l, Power(poly, n), 32) == Bits(poly, n, l)
  {
    hide Product, Bits, Masked, Mask;
    ProductCommutesWithBits(poly, l, n, ONE, 32);
    ProductWithOne(poly, l, 32);
    CoefficientsAreSingle(poly, 32);
    OneRunsOut();
    MaskEnds(l);
  }

  // ----- the tables of zero extensions -----

  const LENGTHS: nat := 0x1_0000_0000_0000_0000

  function Pow16(k: nat): (p: nat)
    ensures p > 0
  {
    if k == 0 then 1 else 16 * Pow16(k - 1)
  }

  lemma SixteenDigits()
    ensures Pow16(16) == LENGTHS
  {
    assert Pow16(4) == 0x1_0000;
    assert Pow16(8) == 0x1_0000_0000;
    assert Pow16(12) == 0x1_0000_0000_0000;
  }

  lemma {:induction false} Pow16Grows(k: nat, n: nat)
    requires k <= n
    ensures Pow16(k) <= Pow16(n)
  {
    if k < n {
      Pow16Grows(k, n - 1);
    }
  }

  /** Entry 15k + a - 1 extends by a * 16^k zero bytes. */
  ghost predicate IsZeroesTable(poly: bv32, t: seq<bv32>, digits: nat) {
    && |t| == 15 * digits
    && forall k: nat, a: nat | k < digits && 1 <= a <= 15 :: t[15 * k + a - 1] == Power(poly, 8 * (a * Pow16(k)))
  }

  lemma ProductOfPowers(poly: bv32, i: nat, j: nat)
    ensures Product(poly, Power(poly, i), Power(poly, j), 32) == Power(poly, i + j)
  {
    hide Bits, Product;
    ProductWithPower(poly, Power(poly, i), j);
    BitsAdd(poly, j, i, ONE);
  }

  lemma FirstPower(poly: bv32)
    ensures Power(poly, 1) == Half(ONE)
  {
    FirstSingle();
    SingleStep(0, ONE);
    hide Half, Xor, Odd;
    assert Power(poly, 1) == Bit(poly, Bits(poly, 0, ONE));
  }

  /** inc_len <<= ZEROES_BASE_LG in 64 bits. */
  function ShiftedLength(n: nat): nat {
    n * 16 % LENGTHS
  }

  lemma NextLength(k: nat)
    requires k < 16
    ensures ShiftedLength(Pow16(k)) == if k + 1 < 16 then Pow16(k + 1) else 0
    ensures Pow16(k + 1) == 16 * Pow16(k)
  {
    SixteenDigits();
    if k + 1 < 16 {
      Pow16Grows(k + 1, 15);
      assert Pow16(16) == 16 * Pow16(15);
    }
  }

  /** The entries for one digit; v ends as the extension by sixteen times as many bytes. */
  method FillDigit(poly: bv32, inc: bv32, t0: seq<bv32>, ghost k: nat) returns (t: seq<bv32>, v: bv32)
    requires IsZeroesTable(poly, t0, k) && inc == Power(poly, 8 * Pow16(k))
    ensures IsZeroesTable(poly, t, k + 1) && v == Power(poly, 8 * Pow16(k + 1))
  {
    hide Power, Product, Pow16;
    t, v := t0, inc;
    ghost var len := Pow16(k);
    for a := 1 to 16
      invariant v == Power(poly, 8 * (a * len))
      invariant |t| == 15 * k + a - 1 && t0 <= t
      invariant forall b: nat | 1 <= b < a :: t[15 * k + b - 1] == Power(poly, 8 * (b * len))
    {
      t := t + [v];
      ProductOfPowers(poly, 8 * (a * len), 8 * len);
      v := PolyMultiply(v, inc, poly);
      assert 8 * (a * len) + 8 * len == 8 * ((a + 1) * len);
    }
    Pow16Next(k);
  }

  lemma Pow16Next(k: nat)
    ensures Pow16(k + 1) == 16 * Pow16(k)
  {}

  lemma NoZeroesYet(poly: bv32)
    ensures IsZeroesTable(poly, [], 0) && Pow16(0) == 1
  {}

  method FillZeroesTable(poly: bv32) returns (t: seq<bv32>)
    ensures IsZeroesTable(poly, t, 16)
  {
    hide Half, Power, Product, Pow16, IsZeroesTable, ShiftedLength;
    FirstPower(poly);
    NoZeroesYet(poly);
    var inc := Half(ONE);
    ghost var bits: nat := 1;
    for i := 0 to 3
      invariant inc == Power(poly, bits) && bits == (if i == 0 then 1 else if i == 1 then 2 else if i == 2 then 4 else 8)
    {
      ProductOfPowers(poly, bits, bits);
      inc := PolyMultiply(inc, inc, poly);
      bits := 2 * bits;
    }
    t := [];
    var incLen := 1;
    ghost var k := 0;
    while incLen != 0
      invariant k <= 16 && incLen == (if k < 16 then Pow16(k) else 0)
      invariant inc == Power(poly, 8 * Pow16(k))
      invariant IsZeroesTable(poly, t, k)
      decreases 16 - k
    {
      t, inc := FillDigit(poly, inc, t, k);
      NextLength(k);
      incLen := ShiftedLength(incLen);
      k := k + 1;
    }
  }

  // ----- the same product, two bits at a time in a word of 64 -----

  function Wide(s: bv32): bv64 { s as bv64 }

  function Xor64(a: bv64, b: bv64): bv64 { a ^ b }

  predicate Odd64(u: bv64) { u & 1 == 1 }

  function Half64(u: bv64): bv64 { u >> 1 }

  lemma WideXor(a: bv32, b: bv32)
    ensures Wide(Xor(a, b)) == Xor64(Wide(a), Wide(b))
  {}

  lemma WideParts(s: bv32)
    ensures Odd64(Wide(s)) == Odd(s) && Half64(Wide(s)) == Wide(Half(s))
  {}

  lemma Odd64Xor(a: bv64, b: bv64)
    ensures Odd64(Xor64(a, b)) <==> Odd64(a) != Odd64(b)
  {}

  lemma RawHalf64Xor(a: bv64, b: bv64)
    ensures (a ^ b) >> 1 == (a >> 1) ^ (b >> 1)
  {}

  lemma Half64Xor(a: bv64, b: bv64)
    ensures Half64(Xor64(a, b)) == Xor64(Half64(a), Half64(b))
  {
    RawHalf64Xor(a, b);
  }

  lemma RawXor64Assoc(a: bv64, b: bv64, c: bv64)
    ensures (a ^ b) ^ c == a ^ (b ^ c)
  {}

  lemma Xor64Assoc(a: bv64, b: bv64, c: bv64)
    ensures Xor64(Xor64(a, b), c) == Xor64(a, Xor64(b, c))
  {
    RawXor64Assoc(a, b, c);
  }

  lemma Xor64Comm(a: bv64, b: bv64)
    ensures Xor64(a, b) == Xor64(b, a)
  {}

  lemma Xor64Same(a: bv64)
    ensures Xor64(a, a) == 0 && Xor64(a, 0) == Xor64(0, a) == a
  {}

  lemma WideZero()
    ensures Wide(0) == 0
  {}

  /** One bit of the reduction, in a word with room for the bits still to be shifted out. */
  function Bit64(poly: bv32, u: bv64): bv64 {
    if Odd64(u) then Xor64(Half64(u), Wide(poly)) else Half64(u)
  }

  function Bits64(poly: bv32, n: nat, u: bv64): bv64 {
    if n == 0 then u else Bits64(poly, n - 1, Bit64(poly, u))
  }

  lemma Bit64IsLinear(poly: bv32, a: bv64, b: bv64)
    ensures Bit64(poly, Xor64(a, b)) == Xor64(Bit64(poly, a), Bit64(poly, b))
  {
    hide Xor64, Odd64, Half64, Wide;
    Odd64Xor(a, b);
    Half64Xor(a, b);
    var p, q, r := Half64(a), Half64(b), Wide(poly);
    Xor64Assoc(p, q, r);
    Xor64Comm(q, r);
    Xor64Assoc(p, r, q);
    Xor64Assoc(Xor64(p, r), q, r);
    Xor64Assoc(Xor64(p, q), r, r);
    Xor64Same(r);
    Xor64Same(Xor64(p, q));
  }

  lemma {:induction false} Bits64AreLinear(poly: bv32, n: nat, a: bv64, b: bv64)
    ensures Bits64(poly, n, Xor64(a, b)) == Xor64(Bits64(poly, n, a), Bits64(poly, n, b))
  {
    hide Xor64, Bit64;
    if n > 0 {
      Bit64IsLinear(poly, a, b);
      Bits64AreLinear(poly, n - 1, Bit64(poly, a), Bit64(poly, b));
    }
  }

  lemma {:induction false} Bits64Add(poly: bv32, m: nat, n: nat, u: bv64)
    ensures Bits64(poly, m + n, u) == Bits64(poly, m, Bits64(poly, n, u))
  {
    hide Bit64;
    if n > 0 {
      Bits64Add(poly, m, n - 1, Bit64(poly, u));
    }
  }

  /** In the lower half of the word the two reductions are the same. */
  lemma {:induction false} BitsOfWide(poly: bv32, n: nat, s: bv32)
    ensures Bits64(poly, n, Wide(s)) == Wide(Bits(poly, n, s))
  {
    hide Wide, Xor, Xor64, Odd, Odd64, Half, Half64;
    if n > 0 {
      WideParts(s);
      WideXor(Half(s), poly);
      BitsOfWide(poly, n - 1, Bit(poly, s));
      BitsAdd(poly, n - 1, 1, s);
      assert Bits(poly, 1, s) == Bit(poly, Bits(poly, 0, s)) == Bit(poly, s);
    }
  }

  function LowByte64(u: bv64): bv8 { (u & 0xff) as bv8 }

  function ShiftByte64(u: bv64): bv64 { u >> 8 }

  function HighBytes64(u: bv64): bv64 { u & 0xffffffffffffff00 }

  lemma LowAndHigh64(u: bv64)
    ensures Xor64(Wide(Word(LowByte64(u))), HighBytes64(u)) == u
    ensures ShiftByte64(HighBytes64(u)) == ShiftByte64(u)
    ensures HighBytes64(u) & 0xff == 0
  {}

  lemma EvenBits64(u: bv64)
    requires u & 0xff == 0
    ensures !Odd64(u) && !Odd64(u >> 1) && !Odd64(u >> 2) && !Odd64(u >> 3)
    ensures !Odd64(u >> 4) && !Odd64(u >> 5) && !Odd64(u >> 6) && !Odd64(u >> 7)
    ensures Half64(u) == u >> 1 && Half64(u >> 1) == u >> 2 && Half64(u >> 2) == u >> 3 && Half64(u >> 3) == u >> 4
    ensures Half64(u >> 4) == u >> 5 && Half64(u >> 5) == u >> 6 && Half64(u >> 6) == u >> 7 && Half64(u >> 7) == u >> 8
  {}

  lemma ShiftedOutByte64(poly: bv32, u: bv64)
    requires u & 0xff == 0
    ensures Bits64(poly, 8, u) == ShiftByte64(u)
  {
    EvenBits64(u);
    hide Odd64, Half64, Xor64;
    assert Bits64(poly, 1, u >> 7) == u >> 8;
    assert Bits64(poly, 2, u >> 6) == u >> 8;
    assert Bits64(poly, 3, u >> 5) == u >> 8;
    assert Bits64(poly, 4, u >> 4) == u >> 8;
    assert Bits64(poly, 5, u >> 3) == u >> 8;
    assert Bits64(poly, 6, u >> 2) == u >> 8;
    assert Bits64(poly, 7, u >> 1) == u >> 8;
  }

  /** Reducing modulo the polynomial, one table lookup for eight bits. */
  lemma TableStep64(poly: bv32, u: bv64)
    ensures Xor64(ShiftByte64(u), Wide(Table0(poly, LowByte64(u)))) == Bits64(poly, 8, u)
  {
    hide Bits, Bits64, Xor64, LowByte64, ShiftByte64, HighBytes64, Word, Wide;
    LowAndHigh64(u);
    Bits64AreLinear(poly, 8, Wide(Word(LowByte64(u))), HighBytes64(u));
    ShiftedOutByte64(poly, HighBytes64(u));
    BitsOfWide(poly, 8, Word(LowByte64(u)));
    Xor64Comm(ShiftByte64(u), Wide(Table0(poly, LowByte64(u))));
  }

  function Double64(u: bv64): bv64 { u << 1 }

  /** s, shifted up by j bits. */
  function Up(s: bv32, j: nat): bv64 {
    if j == 0 then Wide(s) else Double64(Up(s, j - 1))
  }

  /** The bits that shifting up by j leaves clear at the top. */
  function Room(j: nat): bv64 {
    if j == 0 then 0xffffffff00000000 else Double64(Room(j - 1))
  }

  predicate Fits(u: bv64, room: bv64) { u & room == 0 }

  predicate HasTop(room: bv64) { room & 0x8000000000000000 != 0 }

  lemma WideFits(s: bv32)
    ensures Fits(Wide(s), 0xffffffff00000000)
  {}

  lemma RawDoubleFits(u: bv64, room: bv64)
    requires u & room == 0
    ensures (u << 1) & (room << 1) == 0
  {}

  lemma DoubleFits(u: bv64, room: bv64)
    requires Fits(u, room)
    ensures Fits(Double64(u), Double64(room))
  {
    RawDoubleFits(u, room);
  }

  lemma RawHalfOfDouble64(u: bv64, room: bv64)
    requires u & room == 0 && room & 0x8000000000000000 != 0
    ensures (u << 1) >> 1 == u && (u << 1) & 1 == 0
  {}

  lemma HalfOfDouble64(u: bv64, room: bv64)
    requires Fits(u, room) && HasTop(room)
    ensures Half64(Double64(u)) == u && !Odd64(Double64(u))
  {
    RawHalfOfDouble64(u, room);
  }

  lemma ThereIsRoom(j: nat)
    requires j <= 8
    ensures HasTop(Room(j))
  {
    assert Room(2) == 0xfffffffc00000000;
    assert Room(4) == 0xfffffff000000000;
    assert Room(6) == 0xffffffc000000000;
    assert Room(8) == 0xffffff0000000000;
  }

  lemma {:induction false} UpFits(s: bv32, j: nat)
    ensures Fits(Up(s, j), Room(j))
  {
    hide Wide, Fits, Double64;
    if j == 0 {
      WideFits(s);
    } else {
      UpFits(s, j - 1);
      DoubleFits(Up(s, j - 1), Room(j - 1));
    }
  }

  lemma UpStep(s: bv32, j: nat)
    requires 1 <= j <= 8
    ensures !Odd64(Up(s, j)) && Half64(Up(s, j)) == Up(s, j - 1)
  {
    hide Wide, Fits, Double64, HasTop, Room, Odd64, Half64;
    UpFits(s, j - 1);
    ThereIsRoom(j - 1);
    HalfOfDouble64(Up(s, j - 1), Room(j - 1));
  }

  lemma {:induction false} UpBits(poly: bv32, s: bv32, j: nat)
    requires j <= 8
    ensures Bits64(poly, j, Up(s, j)) == Wide(s)
  {
    hide Odd64, Half64, Xor64, Wide;
    if j > 0 {
      UpStep(s, j);
      hide Up;
      UpBits(poly, s, j - 1);
    }
  }

  // From the highest power down: x^31 is the lowest bit.

  function Halves(l: bv32, n: nat): bv32 {
    if n == 0 then l else Half(Halves(l, n - 1))
  }

  lemma {:induction false} HalvesAdd(l: bv32, m: nat, n: nat)
    ensures Halves(Halves(l, m), n) == Halves(l, m + n)
  {
    hide Half;
    if n > 0 {
      HalvesAdd(l, m, n - 1);
    }
  }

  /** The product with the polynomial that the n lowest bits of l stand for, over x^(32 - n). */
  function Horner(poly: bv32, l: bv32, t: bv32, n: nat): bv32 {
    if n == 0 then 0
    else Xor(Bit(poly, Horner(poly, l, t, n - 1)), if Odd(Halves(l, n - 1)) then t else 0)
  }

  lemma RawHalvedBit(y: bv32, o: bv32)
    requires o & 1 == 0
    ensures (y >> 1) & (o >> 1) != 0 <==> y & o != 0
  {}

  lemma HalvedHas(y: bv32, o: bv32)
    requires !Odd(o)
    ensures Has(Half(y), Half(o)) <==> Has(y, o)
  {
    RawNotOdd(o);
    RawHalvedBit(y, o);
  }

  lemma RawNotOdd(o: bv32)
    ensures o & 1 != 1 <==> o & 1 == 0
  {}

  lemma HasLast(y: bv32)
    ensures Has(y, 1) <==> Odd(y)
  {}

  lemma LastCoefficient()
    ensures One(31) == 1
  {
    assert One(8) == 0x800000;
    assert One(16) == 0x8000;
    assert One(24) == 0x80;
  }

  lemma CoefficientIsEven(k: nat)
    requires k < 31
    ensures !Odd(One(k))
  {
    LastCoefficient();
    if One(k + 1) == 0 {
      NothingLeft(POLY, 0, 0, k + 1, 31);
      assert false;
    }
    CoefficientsAreSingle(POLY, k);
    assert One(k) != 0 by { ZeroWord(); }
    SingleStep(Mask(k), One(k));
  }

  lemma {:induction false} CoefficientFromLow(l: bv32, n: nat, k: nat)
    requires n <= k <= 31
    ensures Has(Halves(l, n), One(k)) <==> Has(l, One(k - n))
  {
    hide One, Has, Half, Odd;
    if n > 0 {
      CoefficientFromLow(l, n - 1, k - 1);
      CoefficientIsEven(k - 1);
      OneNext(k);
      HalvedHas(Halves(l, n - 1), One(k - 1));
    }
  }

  lemma OneNext(k: nat)
    requires k > 0
    ensures One(k) == Half(One(k - 1))
  {}

  lemma OneBit(poly: bv32, s: bv32)
    ensures Bits(poly, 1, s) == Bit(poly, s)
  {
    hide Bit;
    assert Bits(poly, 0, s) == s;
  }

  lemma HornerStarts(poly: bv32, l: bv32, t: bv32)
    ensures Horner(poly, l, t, 0) == 0 && Wide(0) == 0 && Halves(l, 0) == l
  {
    WideZero();
  }

  lemma HornerNext(poly: bv32, l: bv32, t: bv32, n: nat)
    ensures Horner(poly, l, t, n + 1) == Xor(Bit(poly, Horner(poly, l, t, n)), if Odd(Halves(l, n)) then t else 0)
  {}

  lemma ProductNext(poly: bv32, l: bv32, t: bv32, k: nat)
    ensures Product(poly, l, t, k + 1) == Xor(Product(poly, l, t, k), if Has(l, One(k)) then Bits(poly, k, t) else 0)
  {}

  /** The coefficient that comes n-th from below is the one that comes (32 - n)-th from above. */
  lemma TermFromLow(poly: bv32, l: bv32, t: bv32, n: nat)
    requires 1 <= n <= 32
    ensures (if Has(l, One(32 - n)) then Bits(poly, 32 - n, t) else 0)
         == Bits(poly, 32 - n, if Odd(Halves(l, n - 1)) then t else 0)
  {
    hide Has, One, Halves, Bits, Odd;
    CoefficientFromLow(l, n - 1, 31);
    LastCoefficient();
    HasLast(Halves(l, n - 1));
    BitsOfZero(poly, 32 - n);
  }

  lemma {:induction false} HornerIsProduct(poly: bv32, l: bv32, t: bv32, n: nat)
    requires n <= 32
    ensures Product(poly, l, t, 32) == Xor(Product(poly, l, t, 32 - n), Bits(poly, 32 - n, Horner(poly, l, t, n)))
  {
    hide Xor, Has, One, Halves, Bit, Bits, Odd, Horner, Product;
    if n == 0 {
      BitsOfZero(poly, 32);
      assert Horner(poly, l, t, 0) == 0 by { HornerStarts(poly, l, t); }
      XorZero(Product(poly, l, t, 32));
    } else {
      HornerIsProduct(poly, l, t, n - 1);
      var k := 32 - n;
      var before, h := Product(poly, l, t, k), Horner(poly, l, t, n - 1);
      var term := if Odd(Halves(l, n - 1)) then t else 0;
      TermFromLow(poly, l, t, n);
      BitsAdd(poly, k, 1, h);
      OneBit(poly, h);
      HornerNext(poly, l, t, n - 1);
      ProductNext(poly, l, t, k);
      BitsAreLinear(poly, k, Bit(poly, h), term);
      XorAssoc(before, Bits(poly, k, term), Bits(poly, k, Bit(poly, h)));
      XorComm(Bits(poly, k, term), Bits(poly, k, Bit(poly, h)));
    }
  }

  lemma HornerEnds(poly: bv32, l: bv32, t: bv32)
    ensures Horner(poly, l, t, 32) == Product(poly, l, t, 32)
  {
    hide Xor, Horner;
    HornerIsProduct(poly, l, t, 32);
    NoBits(poly, Horner(poly, l, t, 32));
    XorComm(0, Horner(poly, l, t, 32));
    XorZero(Horner(poly, l, t, 32));
  }

  /** t or nothing, shifted up. */
  function UpIf(b: bool, t: bv32, j: nat): bv64 {
    if b then Up(t, j) else 0
  }

  /** The carry-less sum for the i lowest bits of l. */
  function Sum(r: bv64, l: bv32, t: bv32, i: nat): bv64 {
    if i == 0 then r else Xor64(Sum(r, l, t, i - 1), Shifted(l, t, i - 1))
  }

  function Shifted(l: bv32, t: bv32, i: nat): bv64 {
    UpIf(Odd(Halves(l, i)), t, i + 1)
  }

  lemma ReduceStep(poly: bv32, sum: bv64, shifted: bv64, h: bv32, term: bv32, k: nat)
    requires Bits64(poly, 8, sum) == Wide(Bits(poly, k + 1, h)) && Bits64(poly, 8, shifted) == Wide(Bits(poly, k, term))
    ensures Bits64(poly, 8, Xor64(sum, shifted)) == Wide(Bits(poly, k, Xor(Bit(poly, h), term)))
  {
    hide Xor, Xor64, Wide, Bit, Bits, Bits64;
    Bits64AreLinear(poly, 8, sum, shifted);
    BitsAdd(poly, k, 1, h);
    OneBit(poly, h);
    BitsAreLinear(poly, k, Bit(poly, h), term);
    WideXor(Bits(poly, k, Bit(poly, h)), Bits(poly, k, term));
  }

  lemma SumNext(r: bv64, l: bv32, t: bv32, i: nat)
    ensures Sum(r, l, t, i + 1) == Xor64(Sum(r, l, t, i), Shifted(l, t, i)) && Sum(r, l, t, 0) == r
  {}

  /** Eight bits are summed before they are reduced, and each is reduced as often as it must be. */
  lemma {:induction false} SumReduces(poly: bv32, l: bv32, t: bv32, n: nat, i: nat)
    requires i <= 8
    ensures Bits64(poly, 8, Sum(Wide(Horner(poly, l, t, n)), Halves(l, n), t, i))
         == Wide(Bits(poly, 8 - i, Horner(poly, l, t, n + i)))
  {
    hide Xor, Xor64, Wide, Odd, Halves, Bit, Bits, Bits64, Shifted, Horner, Sum;
    var r, rest := Wide(Horner(poly, l, t, n)), Halves(l, n);
    if i == 0 {
      SumNext(r, rest, t, 0);
      BitsOfWide(poly, 8, Horner(poly, l, t, n));
    } else {
      SumReduces(poly, l, t, n, i - 1);
      HalvesAdd(l, n, i - 1);
      ShiftedReduces(poly, rest, t, i);
      SumNext(r, rest, t, i - 1);
      HornerNext(poly, l, t, n + i - 1);
      ReduceStep(poly, Sum(r, rest, t, i - 1), Shifted(rest, t, i - 1), Horner(poly, l, t, n + i - 1),
                 if Odd(Halves(l, n + i - 1)) then t else 0, 8 - i);
    }
  }

  lemma ShiftedReduces(poly: bv32, l: bv32, t: bv32, i: nat)
    requires 1 <= i <= 8
    ensures Bits64(poly, 8, Shifted(l, t, i - 1)) == Wide(Bits(poly, 8 - i, if Odd(Halves(l, i - 1)) then t else 0))
  {
    hide Xor, Xor64, Wide, Up, Odd, Halves, Bit, Bit64, Bits, Bits64;
    if Odd(Halves(l, i - 1)) {
      Bits64Add(poly, 8 - i, i, Up(t, i));
      UpBits(poly, t, i);
      BitsOfWide(poly, 8 - i, t);
    } else {
      WideZero();
      BitsOfWide(poly, 8, 0);
      BitsOfZero(poly, 8);
      BitsOfZero(poly, 8 - i);
    }
  }

  /** The two lowest bits, as an index. */
  function Two(l: bv32): (k: nat)
    ensures k < 4
  {
    (if Odd(l) then 1 else 0) + (if Odd(Half(l)) then 2 else 0)
  }

  function Shl2(u: bv64): bv64 { u << 2 }

  function Shl4(u: bv64): bv64 { u << 4 }

  function Shl6(u: bv64): bv64 { u << 6 }

  lemma ShlDoubles(u: bv64)
    ensures Shl2(u) == Double64(Double64(u)) && Shl4(u) == Shl2(Shl2(u)) && Shl6(u) == Shl2(Shl4(u))
  {}

  lemma DoubleZero()
    ensures Double64(0) == 0
  {}

  lemma RawDouble64Xor(a: bv64, b: bv64)
    ensures (a ^ b) << 1 == (a << 1) ^ (b << 1)
  {}

  lemma Double64Xor(a: bv64, b: bv64)
    ensures Double64(Xor64(a, b)) == Xor64(Double64(a), Double64(b))
  {
    RawDouble64Xor(a, b);
  }

  lemma Shl2Xor(a: bv64, b: bv64)
    ensures Shl2(Xor64(a, b)) == Xor64(Shl2(a), Shl2(b))
  {
    hide Shl2, Shl4, Shl6, Double64, Xor64;
    ShlDoubles(a);
    ShlDoubles(b);
    ShlDoubles(Xor64(a, b));
    Double64Xor(a, b);
    Double64Xor(Double64(a), Double64(b));
  }

  lemma Shl2UpIf(b: bool, t: bv32, j: nat)
    ensures Shl2(UpIf(b, t, j)) == UpIf(b, t, j + 2)
  {
    hide Shl2, Shl4, Shl6, Double64, Wide;
    ShlDoubles(UpIf(b, t, j));
    DoubleZero();
    assert Up(t, j + 2) == Double64(Up(t, j + 1));
  }

  /** The multiples of t by the four polynomials of two bits. */
  function MultiplyTable(t: bv32): (mtab: seq<bv64>)
    ensures |mtab| == 4
  {
    [0, Up(t, 1), Up(t, 2), Xor64(Up(t, 2), Up(t, 1))]
  }

  lemma TableIs(t: bv32)
    ensures var m := Double64(Wide(t)); [0, m, Double64(m), Xor64(Double64(m), m)] == MultiplyTable(t)
  {
    hide Double64, Xor64, Wide;
    assert Up(t, 1) == Double64(Up(t, 0));
  }

  lemma PairIs(l: bv32, t: bv32)
    ensures MultiplyTable(t)[Two(l)] == Xor64(UpIf(Odd(l), t, 1), UpIf(Odd(Half(l)), t, 2))
  {
    hide Odd, Half, Up, Xor64;
    Xor64Same(Up(t, 1));
    Xor64Same(Up(t, 2));
    Xor64Same(0);
    Xor64Comm(Up(t, 1), Up(t, 2));
  }

  lemma PairUp(b0: bool, b1: bool, t: bv32, j: nat)
    ensures Shl2(Xor64(UpIf(b0, t, j + 1), UpIf(b1, t, j + 2))) == Xor64(UpIf(b0, t, j + 3), UpIf(b1, t, j + 4))
  {
    hide Shl2, Xor64, UpIf;
    Shl2Xor(UpIf(b0, t, j + 1), UpIf(b1, t, j + 2));
    Shl2UpIf(b0, t, j + 1);
    Shl2UpIf(b1, t, j + 2);
  }

  lemma PairsUp(l: bv32, t: bv32)
    ensures var u, b0, b1 := MultiplyTable(t)[Two(l)], Odd(l), Odd(Half(l));
      && u == Xor64(UpIf(b0, t, 1), UpIf(b1, t, 2)) && Shl2(u) == Xor64(UpIf(b0, t, 3), UpIf(b1, t, 4))
      && Shl4(u) == Xor64(UpIf(b0, t, 5), UpIf(b1, t, 6)) && Shl6(u) == Xor64(UpIf(b0, t, 7), UpIf(b1, t, 8))
  {
    hide Odd, Half, UpIf, Xor64, Shl2, Shl4, Shl6, Two, MultiplyTable, Double64;
    PairIs(l, t);
    PairUp(Odd(l), Odd(Half(l)), t, 0);
    PairUp(Odd(l), Odd(Half(l)), t, 2);
    PairUp(Odd(l), Odd(Half(l)), t, 4);
    ShlDoubles(MultiplyTable(t)[Two(l)]);
  }

  /** The four lookups of a round stand for two bits each. */
  lemma PairsAre(l: bv32, t: bv32)
    ensures MultiplyTable(t)[Two(l)] == Xor64(Shifted(l, t, 0), Shifted(l, t, 1))
    ensures Shl2(MultiplyTable(t)[Two(Halves(l, 2))]) == Xor64(Shifted(l, t, 2), Shifted(l, t, 3))
    ensures Shl4(MultiplyTable(t)[Two(Halves(l, 4))]) == Xor64(Shifted(l, t, 4), Shifted(l, t, 5))
    ensures Shl6(MultiplyTable(t)[Two(Halves(l, 6))]) == Xor64(Shifted(l, t, 6), Shifted(l, t, 7))
  {
    hide Odd, Half, UpIf, Xor64, Shl2, Shl4, Shl6, Two, MultiplyTable;
    PairsUp(l, t);
    PairsUp(Halves(l, 2), t);
    PairsUp(Halves(l, 4), t);
    PairsUp(Halves(l, 6), t);
    assert Halves(l, 1) == Half(Halves(l, 0)) && Halves(l, 3) == Half(Halves(l, 2));
    assert Halves(l, 5) == Half(Halves(l, 4)) && Halves(l, 7) == Half(Halves(l, 6));
  }

  /** Adding up pairs adds up their members. */
  lemma AddPair(sum: bv64, pairs: bv64, r: bv64, a: bv64, b: bv64)
    requires sum == Xor64(r, pairs)
    ensures Xor64(Xor64(sum, a), b) == Xor64(r, Xor64(pairs, Xor64(a, b)))
  {
    hide Xor64;
    Xor64Assoc(sum, a, b);
    Xor64Assoc(r, pairs, Xor64(a, b));
  }

  /** The four lookups of one round, and the result so far. */
  function Lookups(r: bv64, l: bv32, mtab: seq<bv64>): bv64
    requires |mtab| == 4
  {
    var sum := Xor64(mtab[Two(l)], Shl2(mtab[Two(l >> 2)]));
    Xor64(r, Xor64(Xor64(sum, Shl4(mtab[Two(l >> 4)])), Shl6(mtab[Two(l >> 6)])))
  }

  lemma LookupsSum(r: bv64, l: bv32, t: bv32)
    ensures Lookups(r, l, MultiplyTable(t)) == Sum(r, l, t, 8)
  {
    hide Shifted, Two, MultiplyTable, Halves, Xor64, Shl2, Shl4, Shl6;
    PairsAre(l, t);
    ShiftsAreHalves(l);
    var p0, p1 := Shifted(l, t, 0), Shifted(l, t, 1);
    var p2, p3 := Shifted(l, t, 2), Shifted(l, t, 3);
    var p4, p5 := Shifted(l, t, 4), Shifted(l, t, 5);
    var p6, p7 := Shifted(l, t, 6), Shifted(l, t, 7);
    Xor64Assoc(r, p0, p1);
    assert Sum(r, l, t, 2) == Xor64(Xor64(Sum(r, l, t, 0), p0), p1);
    var pairs := Xor64(p0, p1);
    AddPair(Sum(r, l, t, 2), pairs, r, p2, p3);
    assert Sum(r, l, t, 4) == Xor64(Xor64(Sum(r, l, t, 2), p2), p3);
    pairs := Xor64(pairs, Xor64(p2, p3));
    AddPair(Sum(r, l, t, 4), pairs, r, p4, p5);
    assert Sum(r, l, t, 6) == Xor64(Xor64(Sum(r, l, t, 4), p4), p5);
    pairs := Xor64(pairs, Xor64(p4, p5));
    AddPair(Sum(r, l, t, 6), pairs, r, p6, p7);
    assert Sum(r, l, t, 8) == Xor64(Xor64(Sum(r, l, t, 6), p6), p7);
  }

  lemma RawHalves(l: bv32)
    ensures Half(l) == l >> 1 && Half(l >> 1) == l >> 2 && Half(l >> 2) == l >> 3 && Half(l >> 3) == l >> 4
    ensures Half(l >> 4) == l >> 5 && Half(l >> 5) == l >> 6 && Half(l >> 6) == l >> 7 && Half(l >> 7) == l >> 8
  {}

  lemma ShiftsAreHalves(l: bv32)
    ensures l >> 2 == Halves(l, 2) && l >> 4 == Halves(l, 4) && l >> 6 == Halves(l, 6) && ShiftByte(l) == Halves(l, 8)
  {
    hide Half;
    RawHalves(l);
    assert Halves(l, 1) == l >> 1;
    assert Halves(l, 3) == l >> 3;
    assert Halves(l, 5) == l >> 5;
    assert Halves(l, 7) == l >> 7;
  }

  /** One byte of l: four lookups, and a reduction by eight bits. */
  method MultiplyByte(ghost l0: bv32, ghost t: bv32, ghost poly: bv32, polyTable: seq<bv32>, mtab: seq<bv64>,
                      l: bv32, sum: bv64, ghost x: nat)
    returns (rest: bv32, result: bv64)
    requires IsTable(poly, polyTable, 8) && mtab == MultiplyTable(t)
    requires l == Halves(l0, x) && sum == Wide(Horner(poly, l0, t, x))
    ensures rest == Halves(l0, x + 8) && result == Wide(Horner(poly, l0, t, x + 8))
  {
    hide Horner, Halves, Sum, Lookups, IsTable, Lookup, Table0, Bits64, Bits, LowByte64, ShiftByte64, ShiftByte, Xor64;
    hide MultiplyTable, Wide;
    LookupsSum(sum, l, t);
    SumReduces(poly, l0, t, x, 8);
    NoBits(poly, Horner(poly, l0, t, x + 8));
    result := Lookups(sum, l, mtab);
    TableStep64(poly, result);
    LookupIsTable0(poly, polyTable, LowByte64(result));
    result := Xor64(ShiftByte64(result), Wide(Lookup(polyTable, LowByte64(result))));
    ShiftsAreHalves(l);
    HalvesAdd(l0, x, 8);
    rest := ShiftByte(l);
  }

  /** The multiplication inside ExtendByZeroesImpl: two bits of l at a time, a byte between reductions. */
  method MultiplyByTable(l0: bv32, t: bv32, ghost poly: bv32, polyTable: seq<bv32>) returns (r: bv32)
    requires IsTable(poly, polyTable, 8)
    ensures r == Product(poly, l0, t, 32)
  {
    hide Horner, Halves, IsTable, Xor64, Double64, Product, MultiplyTable, Wide, Narrow;
    var l, x := l0, 0;
    var m := Double64(Wide(t));
    var m2 := Double64(m);
    var mtab := [0, m, m2, Xor64(m2, m)];
    TableIs(t);
    HornerStarts(poly, l0, t);
    var result: bv64 := 0;
    ghost var k := 0;
    while x < 32
      invariant x == 8 * k && k <= 4 && l == Halves(l0, x)
      invariant result == Wide(Horner(poly, l0, t, x))
    {
      l, result := MultiplyByte(l0, t, poly, polyTable, mtab, l, result, x);
      x := x + 8;
      k := k + 1;
    }
    HornerEnds(poly, l0, t);
    NarrowAgain(Horner(poly, l0, t, 32));
    r := Narrow(result);
  }

  function Narrow(u: bv64): bv32 { (u & 0xffffffff) as bv32 }

  lemma NarrowAgain(s: bv32)
    ensures Narrow(Wide(s)) == s
  {}

  // ----- extending by zeroes, a digit at a time -----

  /** The state after `length` zero bytes, by one product for each non-zero base-16 digit. */
  method ExtendByZeroesImpl(crc: bv32, length0: nat, zeroesTable: seq<bv32>, ghost poly: bv32, polyTable: seq<bv32>)
    returns (l: bv32)
    requires length0 < LENGTHS && IsZeroesTable(poly, zeroesTable, 16) && IsTable(poly, polyTable, 8)
    ensures l == Bits(poly, 8 * length0, crc)
  {
    hide Power, Product, Pow16, Bits, IsZeroesTable, IsTable;
    l := crc;
    var length: nat := length0;
    var i := 0;
    ghost var k: nat, done: nat := 0, 0;
    DigitsStart(poly, crc, length0);
    while length != 0
      invariant i == 15 * k && length0 == done + length * Pow16(k)
      invariant length < LENGTHS && (length != 0 ==> k < 16)
      invariant l == Bits(poly, 8 * done, crc)
      decreases length
    {
      var c := length % 16;
      if c != 0 {
        DigitEntry(poly, zeroesTable, k, c);
        ProductWithPower(poly, l, 8 * (c * Pow16(k)));
        BitsAdd(poly, 8 * (c * Pow16(k)), 8 * done, crc);
        l := MultiplyByTable(l, zeroesTable[c + i - 1], poly, polyTable);
      }
      NextDigit(length0, length, k, done);
      done := done + c * Pow16(k);
      i := i + 15;
      length := length / 16;
      k := k + 1;
    }
  }

  lemma DigitsStart(poly: bv32, crc: bv32, length: nat)
    ensures Pow16(0) == 1 && length * Pow16(0) == length && Bits(poly, 0, crc) == crc
  {}

  lemma DigitEntry(poly: bv32, t: seq<bv32>, k: nat, c: nat)
    requires IsZeroesTable(poly, t, 16) && k < 16 && 1 <= c <= 15
    ensures c + 15 * k - 1 < |t| && t[c + 15 * k - 1] == Power(poly, 8 * (c * Pow16(k)))
  {
    assert t[15 * k + c - 1] == Power(poly, 8 * (c * Pow16(k)));
  }

  lemma SplitDigit(q: nat, r: nat, p: nat)
    ensures (16 * q + r) * p == r * p + q * (16 * p)
    ensures q != 0 ==> q * (16 * p) >= 16 * p
  {
    assert (16 * q + r) * p == (16 * q) * p + r * p;
    assert (16 * q) * p == q * (16 * p);
    if q != 0 {
      assert q * (16 * p) == (q - 1) * (16 * p) + 16 * p;
    }
  }

  lemma NextDigit(length0: nat, length: nat, k: nat, done: nat)
    requires length0 < LENGTHS && length0 == done + length * Pow16(k) && length != 0 && k < 16
    ensures length0 == done + (length % 16) * Pow16(k) + (length / 16) * Pow16(k + 1)
    ensures length / 16 != 0 ==> k + 1 < 16
    ensures length % 16 == 0 ==> (length % 16) * Pow16(k) == 0
  {
    hide Pow16;
    SplitDigit(length / 16, length % 16, Pow16(k));
    Pow16Next(k);
    SixteenDigits();
  }

  // ----- taking zeroes away again -----

  function SwapBytes(s: bv32): bv32 {
    (s >> 24) | ((s >> 8) & 0xff00) | ((s << 8) & 0xff0000) | (s << 24)
  }

  function ReverseBits(bits: bv32): bv32 {
    var bits := ((bits & 0xaaaaaaaa) >> 1) | ((bits & 0x55555555) << 1);
    var bits := ((bits & 0xcccccccc) >> 2) | ((bits & 0x33333333) << 2);
    var bits := ((bits & 0xf0f0f0f0) >> 4) | ((bits & 0x0f0f0f0f) << 4);
    SwapBytes(bits)
  }

  function UnextendPoly(): bv32 {
    ReverseBits((POLY << 1) ^ 1)
  }

  lemma ReverseTwice(s: bv32)
    ensures ReverseBits(ReverseBits(s)) == s
  {}

  predicate High(s: bv32) { s & 0x80000000 != 0 }

  function Double(s: bv32): bv32 { s << 1 }

  /** What the comment in crc.cc calls form (C): the inverse of a step, without reversing the word. */
  function UnBit(s: bv32): bv32 {
    if High(s) then Xor(Double(s), Xor(Double(POLY), 1)) else Double(s)
  }

  lemma ReverseMirrors(s: bv32)
    ensures Odd(ReverseBits(s)) <==> High(s)
    ensures Half(ReverseBits(s)) == ReverseBits(Double(s))
  {
    RawReverseOdd(s);
    RawReverseHalf(s);
    hide ReverseBits;
  }

  lemma RawReverseOdd(s: bv32)
    ensures ReverseBits(s) & 1 == (s & 0x80000000) >> 31
  {}

  lemma RawReverseHalf(s: bv32)
    ensures ReverseBits(s) >> 1 == ReverseBits(s << 1)
  {}

  lemma ReverseXor(a: bv32, b: bv32)
    ensures ReverseBits(Xor(a, b)) == Xor(ReverseBits(a), ReverseBits(b))
  {}

  lemma ReversedPoly()
    ensures ReverseBits(UnextendPoly()) == Xor(Double(POLY), 1)
  {
    ReverseTwice((POLY << 1) ^ 1);
  }

  lemma HighXor(a: bv32, b: bv32)
    ensures High(Xor(a, b)) <==> High(a) != High(b)
  {}

  lemma HalfIsLow(s: bv32)
    ensures !High(Half(s)) && High(POLY)
  {}

  lemma DoubleOfHalf(s: bv32)
    ensures Odd(s) ==> Xor(Double(Half(s)), 1) == s
    ensures !Odd(s) ==> Double(Half(s)) == s
  {}

  lemma HalfOfDouble(s: bv32)
    ensures Half(Double(s)) == if High(s) then Xor(s, ONE) else s
  {
    if High(s) {
      RawHalfOfDoubleHigh(s);
    } else {
      RawHalfOfDoubleLow(s);
    }
  }

  lemma RawHalfOfDoubleHigh(s: bv32)
    requires s & 0x80000000 != 0
    ensures (s << 1) >> 1 == s ^ 0x80000000
  {}

  lemma RawHalfOfDoubleLow(s: bv32)
    requires s & 0x80000000 == 0
    ensures (s << 1) >> 1 == s
  {}

  lemma DoubleIsEven(s: bv32)
    ensures !Odd(Double(s)) && Odd(1) && Half(1) == 0
  {}

  lemma DoubleXor(a: bv32, b: bv32)
    ensures Double(Xor(a, b)) == Xor(Double(a), Double(b))
  {}

  lemma ReversedStep(s: bv32)
    ensures ReverseBits(Bit(UnextendPoly(), ReverseBits(s))) == UnBit(s)
  {
    hide Odd, Half, Xor, ReverseBits, UnextendPoly, Double, High;
    ReverseMirrors(s);
    ReverseTwice(Double(s));
    ReverseXor(ReverseBits(Double(s)), UnextendPoly());
    ReversedPoly();
  }

  lemma UnBitUndoesBit(s: bv32)
    ensures UnBit(Bit(POLY, s)) == s
  {
    hide Odd, Half, Xor, Double, High;
    HalfIsLow(s);
    HighXor(Half(s), POLY);
    DoubleOfHalf(s);
    DoubleXor(Half(s), POLY);
    var d, p := Double(Half(s)), Double(POLY);
    XorAssoc(d, p, Xor(p, 1));
    XorAssoc(p, p, 1);
    XorZero(p);
    XorZero(1);
    XorComm(0, 1);
  }

  lemma BitUndoesUnBit(s: bv32)
    ensures Bit(POLY, UnBit(s)) == s
  {
    hide Odd, Half, Xor, Double, High;
    var d, p := Double(s), Double(POLY);
    DoubleIsEven(s);
    DoubleIsEven(POLY);
    HalfOfDouble(s);
    HalfOfDouble(POLY);
    HalfIsLow(s);
    if High(s) {
      OddXor(p, 1);
      OddXor(d, Xor(p, 1));
      HalfXor(p, 1);
      HalfXor(d, Xor(p, 1));
      XorZero(Half(p));
      XorSwap(s, ONE, POLY, ONE);
      XorZero(ONE);
      XorZero(Xor(s, POLY));
      XorUndo(s, POLY);
    }
  }

  /** A step with the other polynomial on the reversed word takes one zero bit away. */
  lemma ReversedStepUndoes(s: bv32)
    ensures ReverseBits(Bit(UnextendPoly(), ReverseBits(Bit(POLY, s)))) == s
    ensures Bit(POLY, ReverseBits(Bit(UnextendPoly(), ReverseBits(s)))) == s
  {
    hide Bit, UnBit, ReverseBits, UnextendPoly;
    ReversedStep(Bit(POLY, s));
    ReversedStep(s);
    UnBitUndoesBit(s);
    BitUndoesUnBit(s);
  }

  /** n zero bits taken away. */
  function Unextended(n: nat, s: bv32): bv32 {
    ReverseBits(Bits(UnextendPoly(), n, ReverseBits(s)))
  }

  lemma {:induction false} UnextendedUndoesBits(n: nat, s: bv32)
    ensures Unextended(n, Bits(POLY, n, s)) == s
    ensures Bits(POLY, n, Unextended(n, s)) == s
  {
    hide ReverseBits, Bit, UnextendPoly;
    ReverseTwice(s);
    if n > 0 {
      var poly := UnextendPoly();
      UnextendedUndoesBits(n - 1, s);
      var t := Bits(POLY, n - 1, s);
      ReversedStepUndoes(t);
      BitsAdd(poly, n - 1, 1, ReverseBits(Bits(POLY, n, s)));
      ReverseTwice(Bit(poly, ReverseBits(Bits(POLY, n, s))));
      var u := Bits(poly, n - 1, ReverseBits(s));
      ReversedStepUndoes(ReverseBits(u));
      ReverseTwice(u);
      BitsAdd(POLY, n - 1, 1, ReverseBits(Bit(poly, u)));
    }
  }

  // ----- the tables, as they are filled -----

  function Pow2(p: nat): (n: nat)
    ensures n > 0
  {
    if p == 0 then 1 else 2 * Pow2(p - 1)
  }

  /** The word with the bits of the number c. */
  function WordOf(c: nat): bv32 {
    if c == 0 then 0 else Xor(Double(WordOf(c / 2)), if c % 2 == 1 then 1 else 0)
  }

  /** The number that the k lowest bits of a word stand for. */
  function ValueOf(s: bv32, k: nat): (v: nat)
    ensures v < Pow2(k)
  {
    if k == 0 then 0 else (if Odd(s) then 1 else 0) + 2 * ValueOf(Half(s), k - 1)
  }

  lemma TwoToTheEighth()
    ensures Pow2(8) == 256 && Pow2(7) == 128 && Pow2(6) == 64 && Pow2(5) == 32 && Pow2(4) == 16
    ensures Pow2(3) == 8 && Pow2(2) == 4 && Pow2(1) == 2 && Pow2(0) == 1
  {}

  lemma HalvesToZero(b: bv8)
    ensures ShiftByte(Word(b)) == 0
  {}

  lemma WordOfTwice(s: bv32, rest: nat, v: nat)
    requires WordOf(rest) == Half(s) && v == (if Odd(s) then 1 else 0) + 2 * rest
    ensures WordOf(v) == s
  {
    TwiceAndOne(rest, if Odd(s) then 1 else 0);
    WordOfHalves(v);
    DoubleOfHalf(s);
    XorZero(Double(Half(s)));
    hide WordOf, Odd, Half, Double, Xor;
  }

  lemma {:induction false} WordOfValue(s: bv32, k: nat)
    requires Halves(s, k) == 0
    ensures WordOf(ValueOf(s, k)) == s
    decreases k
  {
    hide Odd, Half, Double, Xor;
    if k == 0 {
      assert Halves(s, 0) == s && WordOf(0) == 0;
    } else {
      HalvesAdd(s, 1, k - 1);
      assert Halves(s, 1) == Half(Halves(s, 0)) && Halves(s, 0) == s;
      hide WordOf;
      WordOfValue(Half(s), k - 1);
      WordOfTwice(s, ValueOf(Half(s), k - 1), ValueOf(s, k));
    }
  }

  lemma DoubleOfZero()
    ensures Double(0) == 0
  {}

  lemma TwiceAndOne(n: nat, bit: nat)
    requires bit < 2
    ensures (bit + 2 * n) / 2 == n && (bit + 2 * n) % 2 == bit
  {}

  /** Where the entry for a byte is. */
  function Slot(b: bv8): (c: nat)
    ensures c < 256
  {
    TwoToTheEighth();
    ValueOf(Word(b), 8)
  }

  /** A table that takes a byte past n bits. */
  ghost predicate IsTable(poly: bv32, t: seq<bv32>, n: nat) {
    |t| == 256 && forall c | 0 <= c < 256 :: t[c] == Bits(poly, n, WordOf(c))
  }

  function Lookup(t: seq<bv32>, b: bv8): bv32
    requires |t| == 256
  {
    t[Slot(b)]
  }

  lemma LookupIs(poly: bv32, t: seq<bv32>, n: nat, b: bv8)
    requires IsTable(poly, t, n)
    ensures Lookup(t, b) == Bits(poly, n, Word(b))
  {
    ShiftsAreHalves(Word(b));
    HalvesToZero(b);
    hide ShiftByte, Bits, WordOf, ValueOf;
    WordOfValue(Word(b), 8);
  }

  lemma LookupIsTable0(poly: bv32, t: seq<bv32>, b: bv8)
    requires IsTable(poly, t, 8)
    ensures |t| == 256 && Lookup(t, b) == Table0(poly, b)
  {
    TableHas256(poly, t, 8);
    hide IsTable, Bits, Word, Lookup;
    LookupIs(poly, t, 8, b);
  }

  /** An entry for one bit is a step from the entry for the next higher bit. */
  lemma LowerBit(poly: bv32, n: nat, p: nat)
    requires p < 7
    ensures Bit(poly, Bits(poly, n, WordOf(Pow2(p + 1)))) == Bits(poly, n, WordOf(Pow2(p)))
  {
    BitWords();
    TwoToTheEighth();
    hide Bits, WordOf, Pow2;
    var s := WordOf(Pow2(p + 1));
    BitsCommute(poly, n, s);
    EvenStep(poly, s);
  }

  lemma BitsCommute(poly: bv32, n: nat, s: bv32)
    ensures Bit(poly, Bits(poly, n, s)) == Bits(poly, n, Bit(poly, s))
  {
    hide Bit;
    BitsAdd(poly, 1, n, s);
    BitsAdd(poly, n, 1, s);
    OneBit(poly, s);
    OneBit(poly, Bits(poly, n, s));
  }

  lemma EvenStep(poly: bv32, s: bv32)
    requires !Odd(s)
    ensures Bit(poly, s) == Half(s)
  {}

  lemma BitWords()
    ensures WordOf(1) == 1 && WordOf(2) == 2 && WordOf(4) == 4 && WordOf(8) == 8
    ensures WordOf(16) == 16 && WordOf(32) == 32 && WordOf(64) == 64 && WordOf(128) == 128
    ensures !Odd(2) && !Odd(4) && !Odd(8) && !Odd(16) && !Odd(32) && !Odd(64) && !Odd(128)
    ensures Half(2) == 1 && Half(4) == 2 && Half(8) == 4 && Half(16) == 8 && Half(32) == 16 && Half(64) == 32 && Half(128) == 64
  {
    SmallWords();
    hide Xor, Double, Odd, Half;
    assert WordOf(0) == 0;
    assert WordOf(1) == 1;
    assert WordOf(2) == 2;
    assert WordOf(4) == 4;
    assert WordOf(8) == 8;
    assert WordOf(16) == 16;
    assert WordOf(32) == 32;
    assert WordOf(64) == 64;
  }

  lemma SmallWords()
    ensures Xor(Double(0), 1) == 1 && Xor(Double(1), 0) == 2 && Xor(Double(2), 0) == 4 && Xor(Double(4), 0) == 8
    ensures Xor(Double(8), 0) == 16 && Xor(Double(16), 0) == 32 && Xor(Double(32), 0) == 64 && Xor(Double(64), 0) == 128
    ensures !Odd(2) && !Odd(4) && !Odd(8) && !Odd(16) && !Odd(32) && !Odd(64) && !Odd(128)
    ensures Half(2) == 1 && Half(4) == 2 && Half(8) == 4 && Half(16) == 8 && Half(32) == 16 && Half(64) == 32 && Half(128) == 64
  {}

  /** The polynomial is the entry for the highest bit of a byte, eight bits on. */
  lemma TopEntry(poly: bv32)
    ensures Bits(poly, 7, 128) == 1 && Bits(poly, 8, WordOf(128)) == poly
  {
    BitWords();
    hide WordOf, Odd, Half, Xor;
    EvenStep(poly, 128);
    assert Bits(poly, 1, 128) == 64;
    assert Bits(poly, 2, 128) == 32;
    assert Bits(poly, 3, 128) == 16;
    assert Bits(poly, 4, 128) == 8;
    assert Bits(poly, 5, 128) == 4;
    assert Bits(poly, 6, 128) == 2;
    assert Bits(poly, 7, 128) == 1;
    StepOfOne(poly);
  }

  lemma StepOfOne(poly: bv32)
    ensures Bit(poly, 1) == poly
  {
    assert Odd(1) && Half(1) == 0;
    XorComm(0, poly);
    XorZero(poly);
  }

  /** Numbers below a power of two join it bit by bit. */
  lemma {:induction false} WordOfSum(p: nat, m: nat)
    requires m < Pow2(p)
    ensures WordOf(Pow2(p) + m) == Xor(WordOf(Pow2(p)), WordOf(m))
  {
    hide Xor, Double;
    if p == 0 {
      XorZero(WordOf(1));
    } else {
      var a, h, bit := Pow2(p - 1), m / 2, m % 2;
      var b: bv32 := if bit == 1 then 1 else 0;
      WordOfSum(p - 1, h);
      TwiceAndOne(a + h, bit);
      TwiceAndOne(a, 0);
      DoubleXor(WordOf(a), WordOf(h));
      XorAssoc(Double(WordOf(a)), Double(WordOf(h)), b);
      XorZero(Double(WordOf(a)));
      WordOfHalves(m);
    }
  }

  lemma WordOfHalves(m: nat)
    ensures WordOf(m) == Xor(Double(WordOf(m / 2)), if m % 2 == 1 then 1 else 0)
  {
    if m == 0 {
      DoubleOfZero();
      XorZero(0);
    }
  }

  predicate HasPowers(poly: bv32, t: seq<bv32>, n: nat, from: nat) {
    |t| == 256 && forall p | from <= p < 8 :: Pow2(p) < 256 && t[Pow2(p)] == Bits(poly, n, WordOf(Pow2(p)))
  }

  predicate HasBelow(poly: bv32, t: seq<bv32>, n: nat, k: nat) {
    |t| == 256 && k <= 256 && forall c | 0 <= c < k :: t[c] == Bits(poly, n, WordOf(c))
  }

  lemma {:induction false} PowersGrow(p: nat, q: nat)
    requires p < q
    ensures Pow2(p) < Pow2(q)
    decreases q
  {
    if p < q - 1 {
      PowersGrow(p, q - 1);
    }
  }

  /** The entries for powers of two, from the highest down. */
  method FillPowers(poly: bv32, last: bv32, ghost n: nat) returns (t: seq<bv32>)
    requires last == Bits(poly, n, WordOf(128))
    ensures HasPowers(poly, t, n, 0) && t[0] == 0
  {
    hide Bits, WordOf, Bit, Pow2;
    TwoToTheEighth();
    t := seq(256, _ => 0);
    var i := 128;
    ghost var e: nat := 8;
    while i != 0
      invariant e <= 8 && i == (if e == 0 then 0 else Pow2(e - 1)) && i <= 128
      invariant HasPowers(poly, t, n, e) && t[0] == 0
      decreases e
    {
      ghost var t0 := t;
      if i == 128 {
        OnlySeventh(e);
        t := t[i := last];
      } else {
        LowerBit(poly, n, e - 1);
        DoubledPower(e);
        t := t[i := Bit(poly, t[2 * i])];
      }
      OnePowerMore(poly, t0, t, n, e);
      NextPower(e);
      e := e - 1;
      i := i / 2;
    }
  }

  lemma OnlySeventh(e: nat)
    requires 0 < e <= 8 && Pow2(e - 1) == 128
    ensures e == 8
  {
    TwoToTheEighth();
    if e < 8 {
      PowersGrow(e - 1, 7);
    }
  }

  lemma DoubledPower(e: nat)
    requires 0 < e <= 8 && Pow2(e - 1) != 128
    ensures e < 8 && Pow2(e) == 2 * Pow2(e - 1) < 256
  {
    TwoToTheEighth();
    if e < 7 {
      PowersGrow(e, 7);
    }
  }

  lemma NextPower(e: nat)
    requires e > 0
    ensures Pow2(e - 1) / 2 == if e == 1 then 0 else Pow2(e - 2)
    ensures Pow2(e - 1) > 0
  {}

  lemma OnePowerMore(poly: bv32, t: seq<bv32>, t': seq<bv32>, n: nat, e: nat)
    requires 0 < e <= 8 && HasPowers(poly, t, n, e) && Pow2(e - 1) < 256
    requires |t'| == 256 && t'[Pow2(e - 1)] == Bits(poly, n, WordOf(Pow2(e - 1)))
    requires forall c | 0 <= c < 256 && c != Pow2(e - 1) :: t'[c] == t[c]
    ensures HasPowers(poly, t', n, e - 1)
  {
    hide Bits, WordOf, Pow2;
    forall p | e - 1 <= p < 8
      ensures Pow2(p) < 256 && t'[Pow2(p)] == Bits(poly, n, WordOf(Pow2(p)))
    {
      if p > e - 1 {
        PowersGrow(e - 1, p);
      }
    }
  }

  /** The entries between one power of two and the next. */
  method FillBetween(poly: bv32, t0: seq<bv32>, i: nat, ghost n: nat, ghost p: nat) returns (t: seq<bv32>)
    requires p < 8 && i == Pow2(p) && 2 * i <= 256
    requires HasPowers(poly, t0, n, 0) && HasBelow(poly, t0, n, i + 1)
    ensures HasPowers(poly, t, n, 0) && HasBelow(poly, t, n, 2 * i)
  {
    assert |t0| == 256;
    hide Bits, WordOf, Xor, HasPowers, HasBelow, Pow2;
    t := t0;
    var k := i + 1;
    while k != 2 * i
      invariant i + 1 <= k <= 2 * i && |t| == 256
      invariant HasPowers(poly, t, n, 0) && HasBelow(poly, t, n, k)
      decreases 2 * i - k
    {
      SumEntry(poly, t, n, p, k);
      t := t[k := Xor(t[i], t[k - i])];
      k := k + 1;
    }
  }

  /** The other entries are sums of two that are there already. */
  method FillSums(poly: bv32, t0: seq<bv32>, ghost n: nat) returns (t: seq<bv32>)
    requires HasPowers(poly, t0, n, 0) && t0[0] == 0
    ensures IsTable(poly, t, n)
  {
    hide Bits, WordOf, IsTable, HasPowers, HasBelow, Pow2;
    t := t0;
    SumsStart(poly, t, n);
    var i := 2;
    ghost var p: nat := 1;
    while i != 256
      invariant 1 <= p <= 8 && i == Pow2(p)
      invariant HasPowers(poly, t, n, 0) && HasBelow(poly, t, n, i)
      decreases 8 - p
    {
      SmallerPower(p);
      PowerEntry(poly, t, n, p);
      t := FillBetween(poly, t, i, n, p);
      p := p + 1;
      i := 2 * i;
    }
    TableIsFull(poly, t, n);
  }

  lemma SumsStart(poly: bv32, t: seq<bv32>, n: nat)
    requires HasPowers(poly, t, n, 0) && t[0] == 0
    ensures HasBelow(poly, t, n, 2) && Pow2(1) == 2
  {
    BitsOfZero(poly, n);
    hide Bits;
    assert Pow2(0) == 1 && WordOf(0) == 0;
  }

  lemma SmallerPower(p: nat)
    requires p <= 8 && Pow2(p) != 256
    ensures p < 8 && Pow2(p + 1) == 2 * Pow2(p) <= 256
  {
    TwoToTheEighth();
    if p < 7 {
      PowersGrow(p, 7);
    }
  }

  lemma PowerEntry(poly: bv32, t: seq<bv32>, n: nat, p: nat)
    requires p < 8 && HasPowers(poly, t, n, 0) && HasBelow(poly, t, n, Pow2(p))
    ensures HasBelow(poly, t, n, Pow2(p) + 1)
  {
    hide Bits, WordOf, Pow2;
    assert t[Pow2(p)] == Bits(poly, n, WordOf(Pow2(p)));
  }

  lemma SumEntry(poly: bv32, t: seq<bv32>, n: nat, p: nat, k: nat)
    requires p < 8 && HasPowers(poly, t, n, 0) && HasBelow(poly, t, n, k)
    requires Pow2(p) < k < 2 * Pow2(p) <= 256
    ensures var t' := t[k := Xor(t[Pow2(p)], t[k - Pow2(p)])];
      HasPowers(poly, t', n, 0) && HasBelow(poly, t', n, k + 1)
  {
    hide Bits, WordOf, Xor, Pow2;
    var i := Pow2(p);
    WordOfSum(p, k - i);
    BitsAreLinear(poly, n, WordOf(i), WordOf(k - i));
    forall q | 0 <= q < 8
      ensures Pow2(q) != k
    {
      NoPowerBetween(p, q, k);
    }
  }

  lemma NoPowerBetween(p: nat, q: nat, k: nat)
    requires Pow2(p) < k < 2 * Pow2(p)
    ensures Pow2(q) != k
  {
    if q < p {
      PowersGrow(q, p);
    } else if q > p + 1 {
      PowersGrow(p + 1, q);
    }
  }

  lemma TableIsFull(poly: bv32, t: seq<bv32>, n: nat)
    requires HasBelow(poly, t, n, 256)
    ensures IsTable(poly, t, n)
  {
    hide Bits, WordOf;
  }

  /** The tables that take the bytes of a word past n bits and, each, eight more than the one before. */
  method FillWordTable(poly: bv32, last: bv32, wordSize: nat, ghost n: nat) returns (t: seq<seq<bv32>>)
    requires last == Bits(poly, n, WordOf(128))
    ensures |t| == wordSize && forall j | 0 <= j < wordSize :: IsTable(poly, t[j], n + 8 * j)
  {
    hide Bits, WordOf, Bit, IsTable, HasPowers;
    t := [];
    for j := 0 to wordSize
      invariant |t| == j && forall k | 0 <= k < j :: IsTable(poly, t[k], n + 8 * k)
    {
      var top := last;
      if j != 0 {
        NextTable(poly, t[j - 1], n + 8 * (j - 1));
        top := Bit(poly, t[j - 1][1]);
      }
      var powers := FillPowers(poly, top, n + 8 * j);
      var row := FillSums(poly, powers, n + 8 * j);
      t := t + [row];
    }
  }

  /** The highest entry of a table comes from the lowest of the one before. */
  lemma NextTable(poly: bv32, t: seq<bv32>, n: nat)
    requires IsTable(poly, t, n)
    ensures |t| == 256 && Bit(poly, t[1]) == Bits(poly, n + 8, WordOf(128))
  {
    BitWords();
    TopEntry(poly);
    hide WordOf, Bit;
    BitsAdd(poly, n + 1, 7, 128);
    BitsAdd(poly, 1, n, 1);
    OneBit(poly, Bits(poly, n, 1));
  }

  /** What InitTables prepares: for one byte, for the bytes of a word and the twelve after it, and for zeroes. */
  datatype Engine = Engine(table0: seq<bv32>, table: seq<seq<bv32>>, zeroes: seq<bv32>,
                           reverseTable0: seq<bv32>, reverseZeroes: seq<bv32>) {
    ghost predicate Valid() {
      && IsTable(POLY, table0, 8) && IsWordTable(table) && IsZeroesTable(POLY, zeroes, 16)
      && IsTable(UnextendPoly(), reverseTable0, 8) && IsZeroesTable(UnextendPoly(), reverseZeroes, 16)
    }
  }

  ghost predicate IsWordTable(table: seq<seq<bv32>>) {
    |table| == 4 && forall j | 0 <= j < 4 :: IsTable(POLY, table[j], 104 + 8 * j)
  }

  method InitTables() returns (engine: Engine)
    ensures engine.Valid()
  {
    hide Bits, WordOf, IsTable, IsZeroesTable, UnextendPoly, Xor, LowByte, ShiftByte, Word, Lookup;
    TopEntry(POLY);
    var t := FillWordTable(POLY, POLY, 1, 8);
    var table0 := t[0];
    TableHas256(POLY, table0, 8);
    var last := POLY;
    NoBits(POLY, POLY);
    for i := 0 to 12
      invariant last == Bits(POLY, 8 * i, POLY)
    {
      LookupIs(POLY, table0, 8, LowByte(last));
      TableStep(POLY, last);
      XorComm(ShiftByte(last), Lookup(table0, LowByte(last)));
      BitsAdd(POLY, 8, 8 * i, POLY);
      last := Xor(ShiftByte(last), Lookup(table0, LowByte(last)));
    }
    BitsAdd(POLY, 96, 8, WordOf(128));
    var table := FillWordTable(POLY, last, 4, 104);
    var zeroes := FillZeroesTable(POLY);
    TopEntry(UnextendPoly());
    t := FillWordTable(UnextendPoly(), UnextendPoly(), 1, 8);
    var reverseZeroes := FillZeroesTable(UnextendPoly());
    engine := Engine(table0, table, zeroes, t[0], reverseZeroes);
  }

  lemma TableHas256(poly: bv32, t: seq<bv32>, n: nat)
    requires IsTable(poly, t, n)
    ensures |t| == 256
  {}

  // ----- the engine -----

  method ExtendByZeroes(engine: Engine, crc: bv32, length: nat) returns (l: bv32)
    requires engine.Valid() && length < LENGTHS
    ensures l == Bits(POLY, 8 * length, crc)
  {
    hide Bits, IsTable, IsZeroesTable, IsWordTable, UnextendPoly;
    l := ExtendByZeroesImpl(crc, length, engine.zeroes, POLY, engine.table0);
  }

  method UnextendByZeroes(engine: Engine, crc: bv32, length: nat) returns (l: bv32)
    requires engine.Valid() && length < LENGTHS
    ensures l == Unextended(8 * length, crc)
  {
    hide Bits, ReverseBits, UnextendPoly, IsTable, IsZeroesTable, IsWordTable;
    l := ReverseBits(crc);
    l := ExtendByZeroesImpl(l, length, engine.reverseZeroes, UnextendPoly(), engine.reverseTable0);
    l := ReverseBits(l);
  }

  // ----- crc32c.cc -----

  /** The CRC32C of a buffer. */
  function Crc(buf: seq<bv8>): bv32 {
    Resumed(0, buf)
  }

  /** The CRC32C of a buffer that continues one whose CRC32C is given. */
  function Resumed(crc: bv32, buf: seq<bv8>): bv32 {
    Xor(Extended(Xor(crc, ALL), buf), ALL)
  }

  method ExtendCrc32c(initial: bv32, buf: seq<bv8>) returns (result: bv32)
    ensures result == Resumed(initial, buf)
  {
    var crc := Xor(initial, ALL);
    // The buffer may lie anywhere.
    var skew: nat := *;
    var engine := InitTables();
    crc := Extend(engine, crc, buf, skew);
    result := Xor(crc, ALL);
  }

  method ComputeCrc32c(buf: seq<bv8>) returns (result: bv32)
    ensures result == Crc(buf)
  {
    result := ExtendCrc32c(0, buf);
  }

  /** Zero bytes stand for steps of one bit. */
  lemma {:induction false} ZeroBytesAreBits(crc: bv32, n: nat)
    ensures Extended(crc, Zeroes(n)) == Bits(POLY, 8 * n, crc)
  {
    hide Bit, Xor;
    if n > 0 {
      hide Bits;
      ZeroBytesAreBits(crc, n - 1);
      assert Zeroes(n)[..n - 1] == Zeroes(n - 1);
      XorZero(Extended(crc, Zeroes(n - 1)));
      BitsAdd(POLY, 8, 8 * (n - 1), crc);
    }
  }

  lemma {:induction false} ExtendedInParts(crc: bv32, a: seq<bv8>, b: seq<bv8>)
    ensures Extended(crc, a + b) == Extended(Extended(crc, a), b)
  {
    hide Byte;
    if b == [] {
      assert a + b == a;
    } else {
      var n := |b| - 1;
      ExtendedInParts(crc, a, b[..n]);
      assert (a + b)[..|a + b| - 1] == a + b[..n];
    }
  }

  /** The start state and the bytes contribute separately. */
  lemma {:induction false} ExtendedIsAffine(s: bv32, t: bv32, b: seq<bv8>)
    ensures Extended(Xor(s, t), b) == Xor(Bits(POLY, 8 * |b|, s), Extended(t, b))
  {
    hide Xor, Word, Bits;
    if b == [] {
      assert Bits(POLY, 0, s) == s by { BitsAdd(POLY, 0, 0, s); NoBits(POLY, s); }
    } else {
      var n := |b| - 1;
      var u, v, w := Bits(POLY, 8 * n, s), Extended(t, b[..n]), Word(b[n]);
      ExtendedIsAffine(s, t, b[..n]);
      XorAssoc(u, v, w);
      BitsAreLinear(POLY, 8, u, Xor(v, w));
      BitsAdd(POLY, 8, 8 * n, s);
    }
  }

  lemma NoBits(poly: bv32, s: bv32)
    ensures Bits(poly, 0, s) == s
  {}

  // ----- the algebra -----

  /** The CRC of a whole from those of its parts. */
  lemma ConcatLaw(a: seq<bv8>, b: seq<bv8>)
    ensures Crc(a + b) == Xor(Bits(POLY, 8 * |b|, Crc(a)), Crc(b))
    ensures Crc(a + b) == Resumed(Crc(a), b)
  {
    hide Bits, Xor, Extended;
    var start := Xor(0, ALL);
    var s := Extended(start, a);
    ExtendedInParts(start, a, b);
    XorUndo(s, ALL);
    ExtendedIsAffine(Crc(a), ALL, b);
    XorComm(0, ALL);
    XorZero(ALL);
    XorAssoc(Bits(POLY, 8 * |b|, Crc(a)), Extended(ALL, b), ALL);
  }

  method ConcatCrc32c(lhs: bv32, rhs: bv32, rhsLen: nat) returns (result: bv32)
    requires rhsLen < LENGTHS
    ensures result == Xor(Bits(POLY, 8 * rhsLen, lhs), rhs)
    ensures forall a, b :: lhs == Crc(a) && rhs == Crc(b) && |b| == rhsLen ==> result == Crc(a + b)
  {
    hide Bits, Xor, Crc;
    result := lhs;
    var engine := InitTables();
    result := ExtendByZeroes(engine, result, rhsLen);
    result := Xor(result, rhs);
    forall a, b | lhs == Crc(a) && rhs == Crc(b) && |b| == rhsLen
      ensures result == Crc(a + b)
    {
      ConcatLaw(a, b);
    }
  }

  method RemoveCrc32cPrefix(crcA: bv32, crcAB: bv32, lengthB: nat) returns (result: bv32)
    requires lengthB < LENGTHS
    ensures forall a, b :: crcA == Crc(a) && crcAB == Crc(a + b) && |b| == lengthB ==> result == Crc(b)
  {
    hide Bits, Xor, Crc;
    result := ConcatCrc32c(crcA, crcAB, lengthB);
    forall a, b | crcA == Crc(a) && crcAB == Crc(a + b) && |b| == lengthB
      ensures result == Crc(b)
    {
      var zeroed := Bits(POLY, 8 * lengthB, crcA);
      ConcatLaw(a, b);
      XorAssoc(zeroed, zeroed, Crc(b));
      XorZero(zeroed);
      XorComm(0, Crc(b));
      XorZero(Crc(b));
    }
  }

  method RemoveCrc32cSuffix(fullCrc: bv32, suffixCrc: bv32, suffixLen: nat) returns (result: bv32)
    requires suffixLen < LENGTHS
    ensures forall a, b :: fullCrc == Crc(a + b) && suffixCrc == Crc(b) && |b| == suffixLen ==> result == Crc(a)
  {
    hide Bits, Xor, Crc, Unextended;
    result := Xor(fullCrc, suffixCrc);
    var engine := InitTables();
    result := UnextendByZeroes(engine, result, suffixLen);
    forall a, b | fullCrc == Crc(a + b) && suffixCrc == Crc(b) && |b| == suffixLen
      ensures result == Crc(a)
    {
      ConcatLaw(a, b);
      XorUndo(Bits(POLY, 8 * suffixLen, Crc(a)), Crc(b));
      UnextendedUndoesBits(8 * suffixLen, Crc(a));
    }
  }

  method ExtendCrc32cByZeroes(initial: bv32, length: nat) returns (result: bv32)
    requires length < LENGTHS
    ensures result == Resumed(initial, Zeroes(length))
  {
    hide Bits, Xor;
    var crc := Xor(initial, ALL);
    ZeroBytesAreBits(crc, length);
    var engine := InitTables();
    crc := ExtendByZeroes(engine, crc, length);
    result := Xor(crc, ALL);
  }

  method UnextendCrc32cByZeroes(initial: bv32, length: nat) returns (result: bv32)
    requires length < LENGTHS
    ensures Resumed(result, Zeroes(length)) == initial
    ensures forall crc: bv32 :: Resumed(crc, Zeroes(length)) == initial ==> result == crc
  {
    hide Bits, Xor, Unextended;
    var crc := Xor(initial, ALL);
    ghost var s := crc;
    var engine := InitTables();
    crc := UnextendByZeroes(engine, crc, length);
    result := Xor(crc, ALL);
    UnextendedUndoesBits(8 * length, s);
    ZeroBytesAreBits(crc, length);
    XorUndo(crc, ALL);
    XorUndo(initial, ALL);
    forall c: bv32 | Resumed(c, Zeroes(length)) == initial
      ensures result == c
    {
      var d := Xor(c, ALL);
      ZeroBytesAreBits(d, length);
      XorUndo(Bits(POLY, 8 * length, d), ALL);
      UnextendedUndoesBits(8 * length, d);
      XorUndo(c, ALL);
    }
  }
}
