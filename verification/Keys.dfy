/** The key decoder of Terminal::getKeyInputs, and the byte sequences it undoes. */
module Keys {

  type Byte = b: int | 0 <= b < 256

  /** An input is a printable character or one of the codes that base.h lists from 0 on. */
  type Input = nat

  const ESC: Input := 0
  const TAB: Input := 1
  const ENTER: Input := 2
  const UP: Input := 3
  const SHIFT_TAB: Input := 7
  const SHIFT_UP: Input := 8

  predicate IsPrintable(b: int) {
    0x20 <= b < 0x7f
  }

  /** Bytes up to and including the first semicolon at or after i, or all of them. */
  function AfterSemicolon(bytes: seq<Byte>, i: nat): (j: nat)
    requires i <= |bytes|
    ensures i <= j <= |bytes|
    decreases |bytes| - i
  {
    if i == |bytes| then i
    else if bytes[i] == ';' as int then i + 1
    else AfterSemicolon(bytes, i + 1)
  }

  /** What one round of the loop consumes, and the input it adds if any. */
  datatype Token = Token(next: nat, inputs: seq<Input>)

  function NextToken(bytes: seq<Byte>): (t: Token)
    requires bytes != []
    ensures 1 <= t.next <= |bytes| && |t.inputs| <= 1
    ensures ESC in t.inputs ==> t.next == |bytes|
  {
    var ch := bytes[0];
    if ch != 27 || |bytes| == 1 then
      if IsPrintable(ch) then Token(1, [ch])
      else if ch == 9 then Token(1, [TAB])
      else if ch == 10 then Token(1, [ENTER])
      else if |bytes| == 1 then Token(1, [ESC])
      else Token(1, [])
    else if bytes[1] == 27 then Token(2, [27])
    else if bytes[1] != '[' as int || |bytes| == 2 then Token(|bytes|, [])
    else
      var code := bytes[2];
      if 'A' as int <= code <= 'D' as int then Token(3, [UP + (code - 'A' as int)])
      else if code == 'Z' as int then Token(3, [SHIFT_TAB])
      else
        Modified(bytes, if code == ';' as int then 3 else AfterSemicolon(bytes, 3))
  }

  /** The modifier and final byte after the semicolon, either of which may be missing. */
  function Modified(bytes: seq<Byte>, i: nat): (t: Token)
    requires i <= |bytes|
    ensures i <= t.next <= |bytes| && |t.inputs| <= 1 && ESC !in t.inputs
  {
    if i + 1 < |bytes| && bytes[i] == '2' as int && 'A' as int <= bytes[i + 1] <= 'D' as int
    then Token(i + 2, [SHIFT_UP + (bytes[i + 1] - 'A' as int)])
    else Token(if i + 2 <= |bytes| then i + 2 else |bytes|, [])
  }

  lemma ModifiedShifts(bytes: seq<Byte>, from: nat, i: nat)
    requires from + i <= |bytes|
    ensures Modified(bytes[from..], i).inputs == Modified(bytes, from + i).inputs
    ensures Modified(bytes[from..], i).next + from == Modified(bytes, from + i).next
  {}

  function Decode(bytes: seq<Byte>): seq<Input>
    decreases |bytes|
  {
    if bytes == [] then []
    else
      var t := NextToken(bytes);
      t.inputs + Decode(bytes[t.next..])
  }

  /** Reads on up to the semicolon, unless that is the code just read. */
  method SkipToSemicolon(bytes: seq<Byte>, start: nat, code: Byte) returns (i: nat)
    requires start <= |bytes|
    ensures i == if code == ';' as int then start else AfterSemicolon(bytes, start)
  {
    i := start;
    var semi := code;
    while semi != ';' as int && i < |bytes|
      invariant start <= i <= |bytes|
      invariant code == ';' as int ==> i == start && semi == code
      invariant code != ';' as int ==>
                  AfterSemicolon(bytes, start) == if semi == ';' as int then i else AfterSemicolon(bytes, i)
      decreases |bytes| - i
    {
      semi := bytes[i];
      i := i + 1;
    }
  }

  /** Reads the bytes that are waiting and appends what they mean; every index stays below their count. */
  method GetKeyInputs(bytes: seq<Byte>, inputs: seq<Input>) returns (result: seq<Input>)
    ensures result == inputs + Decode(bytes)
  {
    DecodeNothing();
    hide Decode;
    result := inputs;
    var count := |bytes|;
    var i := 0;
    while i < count
      invariant 0 <= i <= count
      invariant inputs + Decode(bytes) == result + Decode(bytes[i..])
      decreases count - i
    {
      DecodeStep(bytes, i, result);
      ghost var t := NextToken(bytes[i..]);
      var ch := bytes[i];
      i := i + 1;
      if ch != 27 || i >= count {
        if 0x20 <= ch < 0x7f {
          result := result + [ch];
        } else if ch == 9 {
          result := result + [TAB];
        } else if ch == 10 {
          result := result + [ENTER];
        } else if i >= count {
          result := result + [ESC];
        }
        continue;
      }
      var next := bytes[i];
      i := i + 1;
      if next == 27 {
        result := result + [ch];
        continue;
      } else if next != '[' as int || i >= count {
        i := count;
        continue;
      }
      var code := bytes[i];
      i := i + 1;
      if 'A' as int <= code <= 'D' as int {
        result := result + [UP + (code - 'A' as int)];
        continue;
      } else if code == 'Z' as int {
        result := result + [SHIFT_TAB];
        continue;
      }
      ghost var k := i;
      i := SkipToSemicolon(bytes, i, code);
      AfterSemicolonShifts(bytes, k - 3, 3);
      ModifiedShifts(bytes, k - 3, i - (k - 3));
      var modifier := 0;
      if i < count { modifier := bytes[i]; i := i + 1; }
      var last := 0;
      if i < count { last := bytes[i]; i := i + 1; }
      if modifier == '2' as int && 'A' as int <= last <= 'D' as int {
        result := result + [SHIFT_UP + (last - 'A' as int)];
      }
    }
    assert bytes[count..] == [];
  }

  lemma DecodeNothing()
    ensures Decode([]) == []
  {}

  lemma DecodeStep(bytes: seq<Byte>, i: nat, before: seq<Input>)
    requires i < |bytes|
    ensures var t := NextToken(bytes[i..]);
      before + Decode(bytes[i..]) == (before + t.inputs) + Decode(bytes[i + t.next..])
    ensures before + [] == before
  {
    hide NextToken;
    var t := NextToken(bytes[i..]);
    assert bytes[i..][t.next..] == bytes[i + t.next..];
    assert before + (t.inputs + Decode(bytes[i + t.next..])) == (before + t.inputs) + Decode(bytes[i + t.next..]);
  }

  lemma {:induction false} AfterSemicolonShifts(bytes: seq<Byte>, from: nat, i: nat)
    requires from + i <= |bytes|
    ensures AfterSemicolon(bytes[from..], i) + from == AfterSemicolon(bytes, from + i)
    decreases |bytes| - i
  {
    if from + i < |bytes| && bytes[from + i] != ';' as int {
      AfterSemicolonShifts(bytes, from, i + 1);
    }
  }

  // ----- encoding -----

  predicate IsKey(key: Input) {
    key < 12 || IsPrintable(key)
  }

  /** What a terminal sends for a key. */
  function Encode(key: Input): (bytes: seq<Byte>)
    requires IsKey(key)
  {
    if key == ESC then [27]
    else if key == TAB then [9]
    else if key == ENTER then [10]
    else if key < SHIFT_TAB then [27, '[' as int, 'A' as int + (key - UP)]
    else if key == SHIFT_TAB then [27, '[' as int, 'Z' as int]
    else if key < 12 then [27, '[' as int, '1' as int, ';' as int, '2' as int, 'A' as int + (key - SHIFT_UP)]
    else [key]
  }

  function EncodeAll(keys: seq<Input>): seq<Byte>
    requires forall k | k in keys :: IsKey(k)
  {
    if keys == [] then [] else Encode(keys[0]) + EncodeAll(keys[1..])
  }

  lemma TokenOfKey(key: Input, rest: seq<Byte>)
    requires IsKey(key) && (key == ESC ==> rest == [])
    ensures NextToken(Encode(key) + rest) == Token(|Encode(key)|, [key])
  {
    var bytes := Encode(key) + rest;
    if SHIFT_UP <= key < 12 {
      assert bytes[..6] == Encode(key);
      assert AfterSemicolon(bytes, 3) == 4;
    } else if UP <= key <= SHIFT_TAB {
      assert bytes[..3] == Encode(key);
    } else {
      assert bytes[0] == Encode(key)[0];
    }
  }

  ghost predicate EscOnlyLast(keys: seq<Input>) {
    forall i :: 0 <= i < |keys| - 1 ==> keys[i] != ESC
  }

  lemma {:induction false} DecodeUndoesEncode(keys: seq<Input>)
    requires forall k | k in keys :: IsKey(k)
    requires EscOnlyLast(keys)
    ensures Decode(EncodeAll(keys)) == keys
  {
    if keys != [] {
      var rest := EncodeAll(keys[1..]);
      TokenOfKey(keys[0], rest);
      DecodeUndoesEncode(keys[1..]);
      var bytes := Encode(keys[0]) + rest;
      assert bytes[|Encode(keys[0])|..] == rest;
    }
  }

  // ----- bytes that no key sends -----

  /** Keys are decoded before whatever follows them. */
  lemma {:induction false} KeysThenMore(keys: seq<Input>, more: seq<Byte>)
    requires forall k | k in keys :: IsKey(k) && k != ESC
    ensures Decode(EncodeAll(keys) + more) == keys + Decode(more)
  {
    hide Decode, NextToken, Encode, IsKey;
    if keys == [] {
      assert EncodeAll(keys) + more == more;
    } else {
      var key, tail := keys[0], EncodeAll(keys[1..]);
      assert keys == [key] + keys[1..];
      KeyThenMore(key, tail + more);
      KeysThenMore(keys[1..], more);
      assert Encode(key) + tail + more == Encode(key) + (tail + more);
      assert [key] + (keys[1..] + Decode(more)) == [key] + keys[1..] + Decode(more);
    }
  }

  lemma KeyThenMore(key: Input, more: seq<Byte>)
    requires IsKey(key) && key != ESC
    ensures Decode(Encode(key) + more) == [key] + Decode(more)
  {
    hide NextToken;
    TokenOfKey(key, more);
    assert (Encode(key) + more)[|Encode(key)|..] == more;
  }

  /** The codes of the keys, in numbers. */
  lemma KeyCodes(more: seq<Byte>)
    ensures Decode([9] + more) == [1] + Decode(more) && Decode([10] + more) == [2] + Decode(more)
    ensures forall x: Byte | 65 <= x <= 68 :: Decode([27, 91, x] + more) == [x - 62] + Decode(more)
    ensures Decode([27, 91, 90] + more) == [7] + Decode(more)
    ensures forall x: Byte | 32 <= x < 127 :: Decode([x] + more) == [x] + Decode(more)
  {
    hide Decode;
    KeyThenMore(TAB, more);
    KeyThenMore(ENTER, more);
    KeyThenMore(SHIFT_TAB, more);
    forall x: Byte | 65 <= x <= 68
      ensures Decode([27, 91, x] + more) == [x - 62] + Decode(more)
    {
      KeyThenMore(x - 62, more);
    }
    forall x: Byte | 32 <= x < 127
      ensures Decode([x] + more) == [x] + Decode(more)
    {
      KeyThenMore(x, more);
    }
  }

  /** An escape before a byte that starts no sequence takes all that is left with it. */
  lemma StrayEscapeEndsAll(bytes: seq<Byte>)
    requires |bytes| >= 2 && bytes[0] == 27
    requires bytes[1] !in {27, '[' as int} || bytes == [27, '[' as int]
    ensures Decode(bytes) == []
  {
    assert bytes[|bytes|..] == [];
  }

  /** A byte that is no key is skipped, but as the last one it is taken for Esc, whichever it is. */
  lemma OtherBytes(b: Byte, more: seq<Byte>)
    requires !IsPrintable(b) && b !in {9, 10}
    ensures more == [] ==> Decode([b] + more) == [ESC]
    ensures more != [] && b != 27 ==> Decode([b] + more) == Decode(more)
  {
    assert ([b] + more)[1..] == more;
  }

  /** Parameters of a sequence: no semicolon among them, and not an arrow or Shift-Tab at once. */
  predicate AreParameters(bytes: seq<Byte>) {
    && ';' as int !in bytes
    && (bytes != [] ==> bytes[0] != 'Z' as int && !('A' as int <= bytes[0] <= 'D' as int))
  }

  lemma {:induction false} SemicolonAfter(before: seq<Byte>, parameters: seq<Byte>, more: seq<Byte>)
    requires ';' as int !in parameters
    ensures AfterSemicolon(before + parameters + more, |before|)
         == AfterSemicolon(before + parameters + more, |before| + |parameters|)
    decreases |parameters|
  {
    if parameters != [] {
      assert before + [parameters[0]] + parameters[1..] + more == before + parameters + more;
      SemicolonAfter(before + [parameters[0]], parameters[1..], more);
    }
  }

  lemma SemicolonFollows(parameters: seq<Byte>, more: seq<Byte>)
    requires AreParameters(parameters) && (parameters == [] ==> more != [] && more[0] == ';' as int)
    requires more == [] || more[0] == ';' as int
    ensures var bytes := [27, '[' as int] + parameters + more;
      NextToken(bytes) == Modified(bytes, |parameters| + if more == [] then 2 else 3)
  {
    var bytes := [27, '[' as int] + parameters + more;
    assert bytes[2] == (parameters + more)[0];
    if parameters != [] {
      var before := [27, '[' as int, parameters[0]];
      assert before + parameters[1..] + more == bytes;
      SemicolonAfter(before, parameters[1..], more);
    }
  }

  /** With any parameters, only the modifier 2 and an arrow make a key; other modifiers and letters make none. */
  lemma ModifiedArrows(parameters: seq<Byte>, modifier: Byte, last: Byte, more: seq<Byte>)
    requires AreParameters(parameters)
    ensures Decode([27, '[' as int] + parameters + ([';' as int, modifier, last] + more)) ==
            (if modifier == '2' as int && last == 'A' as int then [8]
             else if modifier == '2' as int && last == 'B' as int then [9]
             else if modifier == '2' as int && last == 'C' as int then [10]
             else if modifier == '2' as int && last == 'D' as int then [11]
             else []) + Decode(more)
  {
    hide NextToken;
    var tail := [';' as int, modifier, last] + more;
    var bytes := [27, '[' as int] + parameters + tail;
    SemicolonFollows(parameters, tail);
    var i := |parameters| + 3;
    assert bytes[i] == modifier && bytes[i + 1] == last && bytes[i + 2..] == more;
  }

  /** A sequence that breaks off makes no key. */
  lemma BrokenOff(parameters: seq<Byte>, tail: seq<Byte>)
    requires AreParameters(parameters) && parameters + tail != []
    requires tail == [] || tail == [';' as int] || (|tail| == 2 && tail[0] == ';' as int)
    ensures Decode([27, '[' as int] + parameters + tail) == []
  {
    hide NextToken;
    var bytes := [27, '[' as int] + parameters + tail;
    SemicolonFollows(parameters, tail);
    assert bytes[|bytes|..] == [];
  }

  /** On any bytes at all, only the last input can be Esc. */
  lemma {:induction false} EscEndsTheInput(bytes: seq<Byte>)
    ensures EscOnlyLast(Decode(bytes))
    decreases |bytes|
  {
    if bytes != [] {
      var t := NextToken(bytes);
      EscEndsTheInput(bytes[t.next..]);
    }
  }

  /** Keys come back from their bytes exactly when Esc is pressed last if at all. */
  lemma RoundTripIffEscLast(keys: seq<Input>)
    requires forall k | k in keys :: IsKey(k)
    ensures Decode(EncodeAll(keys)) == keys <==> EscOnlyLast(keys)
  {
    EscEndsTheInput(EncodeAll(keys));
    if EscOnlyLast(keys) {
      DecodeUndoesEncode(keys);
    }
  }

  /** Two presses of Esc read in one go come back as one input that no key has. */
  lemma TwoEscapesAreMisread()
    ensures Decode(EncodeAll([ESC, ESC])) == [27] && !IsKey(27)
  {
    assert EncodeAll([ESC]) == [27];
    assert EncodeAll([ESC, ESC]) == [27, 27];
    assert Decode([27, 27]) == [27] + Decode([]);
  }
}
