/**
 * CRC32C as section 12.1 of RFC 3720 defines it: a remainder of polynomials over the integers modulo 2, stated over
 * coefficients, with the generator given by its exponents.
 */
module CrcRemainder {
  import opened Crc32c

  // ----- polynomials -----

  /** x^32 + x^28 + x^27 + ... + x^6 + 1. */
  const GENERATOR: set<nat> := {32, 28, 27, 26, 25, 23, 22, 20, 19, 18, 14, 13, 11, 10, 9, 8, 6, 0}

  /** The sum, modulo 2, of the products of the coefficients at k and e - k, for k below n. */
  ghost predicate Sum(q: set<nat>, e: nat, n: nat) {
    n > 0 && Sum(q, e, n - 1) != (n - 1 in q && n - 1 <= e && e - (n - 1) in GENERATOR)
  }

  /** The coefficient at x^e of the product of the generator and the polynomial with the exponents q. */
  ghost predicate Multiple(q: set<nat>, e: nat) {
    Sum(q, e, e + 1)
  }

  /** The i-th bit, from the lowest. */
  predicate IsSet(s: bv32, i: nat) {
    Odd(Halves(s, i))
  }

  function Halves(s: bv32, n: nat): bv32 {
    if n == 0 then s else Half(Halves(s, n - 1))
  }

  /** A word as a polynomial of degree below 32: the highest bit is the constant term. */
  predicate HasTerm(s: bv32, e: nat) {
    e < 32 && IsSet(s, 31 - e)
  }

  /** A buffer as a polynomial: its bits in order, every byte from its lowest bit on, the last of them the constant term. */
  predicate InMessage(bytes: seq<bv8>, e: nat) {
    e < 8 * |bytes| && IsSet(Word(bytes[|bytes| - 1 - e / 8]), 7 - e % 8)
  }

  /** The buffer followed by 32 zero bits, with the start added to the first 32 bits of all that. */
  predicate Dividend(start: bv32, bytes: seq<bv8>, e: nat) {
    (e >= 8 * |bytes| && HasTerm(start, e - 8 * |bytes|)) != (e >= 32 && InMessage(bytes, e - 32))
  }

  /** The quotient and the remainder, which is a word and so of degree below 32, make up the dividend. */
  ghost predicate IsDivision(dividend: nat -> bool, q: set<nat>, r: bv32) {
    forall e: nat :: dividend(e) == (Multiple(q, e) != HasTerm(r, e))
  }

  ghost predicate IsRemainder(dividend: nat -> bool, r: bv32) {
    exists q :: IsDivision(dividend, q, r)
  }

  // ----- multiples of the generator -----

  function Up(q: set<nat>): set<nat> {
    set k | k in q :: k + 1
  }

  lemma {:induction false} SumUp(q: set<nat>, e: nat, n: nat)
    ensures Sum(Up(q), e + 1, n + 1) == Sum(q, e, n)
  {
    if n > 0 {
      SumUp(q, e, n - 1);
      assert n in Up(q) <==> n - 1 in q;
    } else {
      assert 0 !in Up(q);
      assert !Sum(Up(q), e + 1, 0);
    }
  }

  lemma MultipleUp(q: set<nat>, e: nat)
    ensures Multiple(Up(q), e) == (e > 0 && Multiple(q, e - 1))
  {
    if e > 0 {
      SumUp(q, e - 1, e);
    } else {
      assert 0 !in Up(q);
      assert !Sum(Up(q), 0, 0);
    }
  }

  lemma {:induction false} SumWith(q: set<nat>, k: nat, e: nat, n: nat)
    requires k !in q
    ensures Sum(q + {k}, e, n) == (Sum(q, e, n) != (k < n && k <= e && e - k in GENERATOR))
  {
    if n > 0 {
      SumWith(q, k, e, n - 1);
      assert n - 1 in q + {k} <==> n - 1 in q || n - 1 == k;
    }
  }

  /** The highest exponent of a polynomial that is not zero. */
  lemma {:induction false} HasDegree(q: set<nat>) returns (m: nat)
    requires q != {}
    ensures m in q && forall k | k in q :: k <= m
  {
    var k :| k in q;
    m := k;
    if q - {k} != {} {
      var n := HasDegree(q - {k});
      m := if k >= n then k else n;
    }
    assert forall j | j in q :: j == k || j in q - {k};
  }

  lemma {:induction false} SumAtDegree(q: set<nat>, m: nat, n: nat)
    requires m in q && forall k | k in q :: k <= m
    ensures Sum(q, m + 32, n) == (m < n)
  {
    if n > 0 {
      SumAtDegree(q, m, n - 1);
    }
  }

  lemma {:induction false} SumOfBoth(q: set<nat>, q': set<nat>, e: nat, n: nat)
    ensures Sum((q - q') + (q' - q), e, n) == (Sum(q, e, n) != Sum(q', e, n))
  {
    if n > 0 {
      SumOfBoth(q, q', e, n - 1);
    }
  }

  lemma {:induction false} SumOfNone(e: nat, n: nat)
    ensures !Sum({}, e, n)
  {
    if n > 0 {
      SumOfNone(e, n - 1);
    }
  }

  /** A dividend has one remainder. */
  lemma RemainderIsUnique(dividend: nat -> bool, r: bv32, r': bv32)
    requires IsRemainder(dividend, r) && IsRemainder(dividend, r')
    ensures r == r'
  {
    var q :| IsDivision(dividend, q, r);
    var q' :| IsDivision(dividend, q', r');
    var d := (q - q') + (q' - q);
    forall e: nat
      ensures Multiple(d, e) == (HasTerm(r, e) != HasTerm(r', e))
    {
      SumOfBoth(q, q', e, e + 1);
      assert dividend(e) == (Multiple(q, e) != HasTerm(r, e)) == (Multiple(q', e) != HasTerm(r', e));
    }
    if d != {} {
      var m := HasDegree(d);
      SumAtDegree(d, m, m + 33);
      assert Multiple(d, m + 32);
    } else {
      forall e: nat
        ensures HasTerm(r, e) == HasTerm(r', e)
      {
        SumOfNone(e, e + 1);
      }
      SameTerms(r, r');
    }
  }

  // ----- words -----

  lemma {:induction false} HalvesAdd(s: bv32, m: nat, n: nat)
    ensures Halves(Halves(s, m), n) == Halves(s, m + n)
  {
    hide Half;
    if n > 0 {
      HalvesAdd(s, m, n - 1);
    }
  }

  lemma ShiftsAreHalves(s: bv32)
    ensures Half(s) == s >> 1 && Half(s >> 1) == s >> 2 && Half(s >> 2) == s >> 3 && Half(s >> 3) == s >> 4
    ensures Half(s >> 4) == s >> 5 && Half(s >> 5) == s >> 6 && Half(s >> 6) == s >> 7 && Half(s >> 7) == s >> 8
  {}

  lemma EightHalves(s: bv32)
    ensures Halves(s, 8) == ShiftByte(s)
  {
    ShiftsAreHalves(s);
    hide Half;
    assert Halves(s, 1) == s >> 1;
    assert Halves(s, 2) == s >> 2;
    assert Halves(s, 3) == s >> 3;
    assert Halves(s, 4) == s >> 4;
    assert Halves(s, 5) == s >> 5;
    assert Halves(s, 6) == s >> 6;
    assert Halves(s, 7) == s >> 7;
  }

  lemma NothingAboveBytes(s: bv32)
    ensures ShiftByte(ShiftByte(ShiftByte(ShiftByte(s)))) == 0
    ensures s < 256 ==> ShiftByte(s) == 0
  {}

  lemma NoMoreBits(s: bv32, n: nat)
    ensures Halves(s, 32 + n) == 0
    ensures s < 256 ==> Halves(s, 8 + n) == 0
  {
    NothingAboveBytes(s);
    hide Halves, ShiftByte;
    EightHalves(s);
    EightHalves(Halves(s, 8));
    EightHalves(Halves(s, 16));
    EightHalves(Halves(s, 24));
    HalvesAdd(s, 8, 8);
    HalvesAdd(s, 16, 8);
    HalvesAdd(s, 24, 8);
    HalvesAdd(s, 32, n);
    HalvesAdd(s, 8, n);
    HalvesOfZero(n);
  }

  lemma {:induction false} HalvesOfZero(n: nat)
    ensures Halves(0, n) == 0
  {
    if n > 0 {
      HalvesOfZero(n - 1);
    }
  }

  lemma {:induction false} HalvesXor(a: bv32, b: bv32, n: nat)
    ensures Halves(Xor(a, b), n) == Xor(Halves(a, n), Halves(b, n))
  {
    hide Half, Xor;
    if n > 0 {
      HalvesXor(a, b, n - 1);
      HalfXor(Halves(a, n - 1), Halves(b, n - 1));
    }
  }

  lemma TermOfXor(a: bv32, b: bv32, e: nat)
    ensures HasTerm(Xor(a, b), e) == (HasTerm(a, e) != HasTerm(b, e))
  {
    hide Halves, Xor, Odd;
    if e < 32 {
      HalvesXor(a, b, 31 - e);
      OddXor(Halves(a, 31 - e), Halves(b, 31 - e));
    }
  }

  lemma TermOfHalf(s: bv32, e: nat)
    ensures HasTerm(Half(s), e) == (0 < e < 32 && HasTerm(s, e - 1))
  {
    hide Half, Odd;
    if e < 32 {
      HalvesAdd(s, 1, 31 - e);
      assert Halves(s, 1) == Half(s);
      NoMoreBits(s, 0);
      ZeroWord();
    }
  }

  lemma {:induction false} NoBitsLeft(s: bv32, n: nat)
    requires n <= 32 && forall i: nat | i < 32 :: !IsSet(s, i)
    ensures Halves(s, 32 - n) == 0
  {
    if n == 0 {
      NoMoreBits(s, 0);
    } else {
      NoBitsLeft(s, n - 1);
      assert !IsSet(s, 32 - n);
      hide Half, Odd;
      HalfIsZero(Halves(s, 32 - n));
    }
  }

  lemma HalfIsZero(s: bv32)
    requires Half(s) == 0 && !Odd(s)
    ensures s == 0
  {}

  lemma SameTerms(r: bv32, r': bv32)
    requires forall e: nat :: HasTerm(r, e) == HasTerm(r', e)
    ensures r == r'
  {
    var d := Xor(r, r');
    forall i: nat | i < 32
      ensures !IsSet(d, i)
    {
      TermOfXor(r, r', 31 - i);
      assert HasTerm(r, 31 - i) == HasTerm(r', 31 - i);
    }
    NoBitsLeft(d, 32);
    EqualIfNoDifference(r, r');
  }

  lemma EqualIfNoDifference(r: bv32, r': bv32)
    requires Xor(r, r') == 0
    ensures r == r'
  {}

  /** The engine's polynomial is the generator without its leading term. */
  lemma GeneratorTerms(e: nat)
    ensures HasTerm(POLY, e) <==> e in GENERATOR && e != 32
  {
    if e < 32 {
      PolyBits(31 - e);
    }
  }

  lemma PolyBits(i: nat)
    requires i < 32
    ensures IsSet(POLY, i) <==> 31 - i in GENERATOR
  {
    hide IsSet, Halves;
    if i < 8 {
      LowestByte(i);
    } else if i < 16 {
      SecondByte(i);
    } else if i < 24 {
      ThirdByte(i);
    } else {
      HighestByte(i);
    }
  }

  lemma LowestByte(i: nat)
    requires 0 <= i < 8
    ensures IsSet(POLY, i) <==> 31 - i in GENERATOR
  {
    assert Halves(POLY, 0) == 0x82f63b78;
    assert Halves(POLY, 1) == 0x417b1dbc;
    assert Halves(POLY, 2) == 0x20bd8ede;
    assert Halves(POLY, 3) == 0x105ec76f;
    assert Halves(POLY, 4) == 0x82f63b7;
    assert Halves(POLY, 5) == 0x417b1db;
    assert Halves(POLY, 6) == 0x20bd8ed;
    assert Halves(POLY, 7) == 0x105ec76;
  }

  lemma SecondByte(i: nat)
    requires 8 <= i < 16
    ensures IsSet(POLY, i) <==> 31 - i in GENERATOR
  {
    assert Halves(POLY, 8) == 0x82f63b;
    assert Halves(POLY, 9) == 0x417b1d;
    assert Halves(POLY, 10) == 0x20bd8e;
    assert Halves(POLY, 11) == 0x105ec7;
    assert Halves(POLY, 12) == 0x82f63;
    assert Halves(POLY, 13) == 0x417b1;
    assert Halves(POLY, 14) == 0x20bd8;
    assert Halves(POLY, 15) == 0x105ec;
  }

  lemma ThirdByte(i: nat)
    requires 16 <= i < 24
    ensures IsSet(POLY, i) <==> 31 - i in GENERATOR
  {
    assert Halves(POLY, 8) == 0x82f63b;
    assert Halves(POLY, 16) == 0x82f6;
    assert Halves(POLY, 17) == 0x417b;
    assert Halves(POLY, 18) == 0x20bd;
    assert Halves(POLY, 19) == 0x105e;
    assert Halves(POLY, 20) == 0x82f;
    assert Halves(POLY, 21) == 0x417;
    assert Halves(POLY, 22) == 0x20b;
    assert Halves(POLY, 23) == 0x105;
  }

  lemma HighestByte(i: nat)
    requires 24 <= i < 32
    ensures IsSet(POLY, i) <==> 31 - i in GENERATOR
  {
    assert Halves(POLY, 8) == 0x82f63b;
    assert Halves(POLY, 16) == 0x82f6;
    assert Halves(POLY, 24) == 0x82;
    assert Halves(POLY, 25) == 0x41;
    assert Halves(POLY, 26) == 0x20;
    assert Halves(POLY, 27) == 0x10;
    assert Halves(POLY, 28) == 0x8;
    assert Halves(POLY, 29) == 0x4;
    assert Halves(POLY, 30) == 0x2;
    assert Halves(POLY, 31) == 0x1;
  }

  // ----- the bitwise division -----

  function Later(dividend: nat -> bool): nat -> bool {
    (e: nat) => e > 0 && dividend(e - 1)
  }

  /** One step of a zero bit multiplies by x and takes the generator off if the degree has become 32. */
  lemma TermOfBit(s: bv32, e: nat)
    ensures HasTerm(Bit(POLY, s), e) == ((e > 0 && HasTerm(s, e - 1)) != (HasTerm(s, 31) && e in GENERATOR))
  {
    hide Half, Odd, Xor, IsSet;
    assert HasTerm(s, 31) == Odd(s) by { LowestTerm(s); }
    TermOfHalf(s, e);
    TermOfXor(Half(s), POLY, e);
    GeneratorTerms(e);
    NoHigherTerms(s, e);
  }

  lemma LowestTerm(s: bv32)
    ensures HasTerm(s, 31) == Odd(s)
  {}

  lemma NoHigherTerms(s: bv32, e: nat)
    ensures e >= 32 ==> !HasTerm(s, e)
    ensures e > 32 ==> e !in GENERATOR
  {}

  lemma DivisionStep(dividend: nat -> bool, q: set<nat>, s: bv32) returns (q': set<nat>)
    requires IsDivision(dividend, q, s)
    ensures IsDivision(Later(dividend), q', Bit(POLY, s))
  {
    q' := if HasTerm(s, 31) then Up(q) + {0} else Up(q);
    assert 0 !in Up(q);
    hide HasTerm, Sum, Bit, Up;
    forall e: nat
      ensures Later(dividend)(e) == (Multiple(q', e) != HasTerm(Bit(POLY, s), e))
    {
      MultipleUp(q, e);
      SumWith(Up(q), 0, e, e + 1);
      TermOfBit(s, e);
      assert e > 0 ==> dividend(e - 1) == (Multiple(q, e - 1) != HasTerm(s, e - 1));
    }
  }

  lemma {:induction false} DivisionSteps(dividend: nat -> bool, q: set<nat>, s: bv32, n: nat) returns (q': set<nat>)
    requires IsDivision(dividend, q, s)
    ensures IsDivision((e: nat) => e >= n && dividend(e - n), q', Bits(POLY, n, s))
  {
    if n == 0 {
      q' := q;
    } else {
      var q1 := DivisionSteps(dividend, q, s, n - 1);
      q' := DivisionStep((e: nat) => e >= n - 1 && dividend(e - (n - 1)), q1, Bits(POLY, n - 1, s));
    }
  }

  lemma DivisionWith(dividend: nat -> bool, q: set<nat>, s: bv32, w: bv32)
    requires IsDivision(dividend, q, s)
    ensures IsDivision((e: nat) => dividend(e) != HasTerm(w, e), q, Xor(s, w))
  {
    hide HasTerm, Multiple, Xor;
    forall e: nat
      ensures (dividend(e) != HasTerm(w, e)) == (Multiple(q, e) != HasTerm(Xor(s, w), e))
    {
      TermOfXor(s, w, e);
      assert dividend(e) == (Multiple(q, e) != HasTerm(s, e));
    }
  }

  lemma WordIsByte(b: bv8)
    ensures Word(b) < 256
  {}

  lemma TermOfByte(b: bv8, e: nat)
    ensures HasTerm(Word(b), e) == (24 <= e < 32 && IsSet(Word(b), 31 - e))
  {
    hide Halves, Word;
    if e < 24 {
      WordIsByte(b);
      NoMoreBits(Word(b), 23 - e);
      ZeroWord();
    }
  }

  lemma MessageGrows(bytes: seq<bv8>, b: bv8, e: nat)
    ensures InMessage(bytes + [b], e) == if e < 8 then IsSet(Word(b), 7 - e) else InMessage(bytes, e - 8)
  {
    hide IsSet, Word;
    if 8 <= e < 8 * (|bytes| + 1) {
      assert (e - 8) / 8 == e / 8 - 1 && (e - 8) % 8 == e % 8;
    }
  }

  /** A further byte makes the dividend eight bits longer. */
  lemma DividendGrows(start: bv32, bytes: seq<bv8>, b: bv8, e: nat)
    ensures Dividend(start, bytes + [b], e) ==
            (e >= 8 && (Dividend(start, bytes, e - 8) != HasTerm(Word(b), e - 8)))
  {
    hide HasTerm, IsSet, InMessage, Word;
    if e >= 8 { TermOfByte(b, e - 8); }
    if e >= 32 { MessageGrows(bytes, b, e - 32); }
  }

  lemma {:induction false} ExtendedDivides(start: bv32, bytes: seq<bv8>) returns (q: set<nat>)
    ensures IsDivision((e: nat) => Dividend(start, bytes, e), q, Extended(start, bytes))
  {
    if bytes == [] {
      q := {};
      forall e: nat
        ensures Dividend(start, bytes, e) == (Multiple(q, e) != HasTerm(start, e))
      {
        SumOfNone(e, e + 1);
      }
    } else {
      var before, b := bytes[..|bytes| - 1], bytes[|bytes| - 1];
      var s := Extended(start, before);
      assert bytes == before + [b];
      hide HasTerm, Dividend, Multiple, Bits, Xor;
      var q0 := ExtendedDivides(start, before);
      DivisionWith((e: nat) => Dividend(start, before, e), q0, s, Word(b));
      q := DivisionSteps((e: nat) => Dividend(start, before, e) != HasTerm(Word(b), e), q0, Xor(s, Word(b)), 8);
      forall e: nat
        ensures Dividend(start, bytes, e) == (Multiple(q, e) != HasTerm(Extended(start, bytes), e))
      {
        DividendGrows(start, before, b, e);
      }
    }
  }

  /** What the engine computes is the remainder, and nothing else is. */
  lemma ExtendedIsRemainder(start: bv32, bytes: seq<bv8>, r: bv32)
    ensures r == Extended(start, bytes) <==> IsRemainder((e: nat) => Dividend(start, bytes, e), r)
  {
    hide IsDivision, Dividend, Extended;
    var q := ExtendedDivides(start, bytes);
    if IsRemainder((e: nat) => Dividend(start, bytes, e), r) {
      RemainderIsUnique((e: nat) => Dividend(start, bytes, e), r, Extended(start, bytes));
    }
  }

  /**
   * The CRC32C of a buffer is the only word whose complement is the remainder, by the generator, of the buffer and
   * 32 zero bits after it, the first 32 bits of all that complemented.
   */
  lemma CrcIsRemainder(buf: seq<bv8>, c: bv32)
    ensures c == Crc(buf) <==> IsRemainder((e: nat) => Dividend(0xffffffff, buf, e), c ^ 0xffffffff)
  {
    hide IsRemainder, Extended;
    Complemented(buf, c);
    ExtendedIsRemainder(0xffffffff, buf, c ^ 0xffffffff);
  }

  lemma Complemented(buf: seq<bv8>, c: bv32)
    ensures c == Crc(buf) <==> c ^ 0xffffffff == Extended(0xffffffff, buf)
  {
    ComplementIs(c);
    hide Extended, Xor;
    XorUndo(c, ALL);
    XorUndo(Extended(0xffffffff, buf), ALL);
  }

  lemma ComplementIs(c: bv32)
    ensures Xor(c, ALL) == c ^ 0xffffffff && Xor(0, ALL) == 0xffffffff
  {}

  /** One of them in numbers: that of a single zero byte. */
  lemma CrcOfZeroByte()
    ensures Crc([0]) == 0x527d5351
  {}
}
