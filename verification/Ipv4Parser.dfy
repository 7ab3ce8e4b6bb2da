/** The dotted-number parser: one to four parts, each decimal, octal or hexadecimal. */
module Ipv4Parser {
  import opened Words
  import opened Text

  datatype Number = Number(value: Word, rest: seq<Byte>)

  /** The byte under a pointer into a terminated string. */
  function At(s: seq<Byte>, i: nat): Byte
    requires i <= |s|
  {
    if i < |s| then s[i] else 0
  }

  predicate IsBase(base: nat) {
    base == 8 || base == 10 || base == 16
  }

  function ReadDigits(s: seq<Byte>, base: nat, val: Word): (r: Number)
    requires IsBase(base)
    ensures |r.rest| <= |s|
    ensures s != [] && IsDigit(s[0]) ==> |r.rest| < |s|
  {
    if s != [] && IsDigit(s[0]) then
      ReadDigits(s[1..], base, Wrap(val * base + DigitValue(s[0])))
    else if s != [] && base == 16 && IsHexaDigit(s[0]) then
      ReadDigits(s[1..], base, Or(Shl(val, 16), DigitValue(s[0])))
    else Number(val, s)
  }

  predicate IsX(c: Byte) {
    c == 120 || c == 88
  }

  function ReadNumber(s: seq<Byte>): (r: Number)
    requires s != [] && IsDigit(s[0])
    ensures |r.rest| < |s|
  {
    if s[0] != ZERO then ReadDigits(s, 10, 0)
    else if |s| > 1 && IsX(s[1]) then ReadDigits(s[2..], 16, 0)
    else ReadDigits(s[1..], 8, 0)
  }

  /** The end of an accepted text: the terminator, or white space and anything after it. */
  predicate Ends(rest: seq<Byte>) {
    rest == [] || rest[0] == 0 || IsSpace(rest[0])
  }

  /** The address, host order, that the parts and the last number make; early parts are not range-checked. */
  function Combine(parts: seq<Word>, val: Word): Option<Word>
    requires |parts| <= 3
  {
    if |parts| == 0 then Some(val)
    else if |parts| == 1 then
      if val > 0xFF_FFFF then None else Some(Or(val, Shl(parts[0], 0x100_0000)))
    else if |parts| == 2 then
      if val > 0xFFFF then None
      else Some(Or(val, Or(Shl(parts[0], 0x100_0000), Shl(parts[1], 0x1_0000))))
    else
      if val > 0xFF then None
      else Some(Or(val, Or(Or(Shl(parts[0], 0x100_0000), Shl(parts[1], 0x1_0000)), Shl(parts[2], 0x100))))
  }

  function ParseFrom(s: seq<Byte>, parts: seq<Word>): Option<Word>
    requires |parts| <= 3
    decreases |s|
  {
    if s == [] || !IsDigit(s[0]) then None
    else
      var n := ReadNumber(s);
      if n.rest != [] && n.rest[0] == DOT then
        if |parts| == 3 then None else ParseFrom(n.rest[1..], parts + [n.value])
      else if Ends(n.rest) then Combine(parts, n.value)
      else None
  }

  /** What a text means: the address in network order, or nothing. */
  function Meaning(s: seq<Byte>): Option<Word> {
    match ParseFrom(s, [])
    case None => None
    case Some(host) => Some(SwapBytes(host))
  }

  /** The inner loop: digits of a base, from the most significant on. */
  method CollectDigits(s: seq<Byte>, start: nat, base: nat) returns (val: Word, i: nat)
    requires start <= |s| && IsBase(base)
    ensures start <= i <= |s| && ReadDigits(s[start..], base, 0) == Number(val, s[i..])
  {
    hide Or, Wrap;
    val := 0;
    i := start;
    var c := At(s, i);
    while IsDigit(c) || (base == 16 && IsHexaDigit(c))
      invariant start <= i <= |s| && c == At(s, i)
      invariant ReadDigits(s[i..], base, val) == ReadDigits(s[start..], base, 0)
      decreases |s| - i
    {
      assert s[i..][1..] == s[i + 1..];
      if IsDigit(c) {
        val := Wrap(val * base + (c - 48));
      } else {
        val := Or(Shl(val, 16), c + 10 - (if IsLower(c) then 97 else 65));
      }
      i := i + 1;
      c := At(s, i);
    }
  }

  /** The C prefixes: 0x is hexadecimal, 0 octal, anything else decimal. */
  method CollectNumber(s: seq<Byte>, start: nat) returns (val: Word, i: nat)
    requires start < |s| && IsDigit(s[start])
    ensures start < i <= |s| && ReadNumber(s[start..]) == Number(val, s[i..])
  {
    hide ReadDigits;
    var base := 10;
    i := start;
    if At(s, i) == ZERO {
      i := i + 1;
      if IsX(At(s, i)) {
        base := 16;
        i := i + 1;
      } else {
        base := 8;
      }
    }
    assert s[i..] == s[start..][i - start..];
    val, i := CollectDigits(s, i, base);
  }

  /** The outer loop over the parts, then the form chosen by their number. */
  method AsciiToNetwork(s: seq<Byte>, before: Word) returns (status: int, address: Word)
    ensures status == (if Meaning(s).Some? then 1 else 0)
    ensures address == (if Meaning(s).Some? then Meaning(s).value else before)
  {
    hide Or, ReadNumber, SwapBytes;
    var val: Word := 0;
    var i: nat := 0;
    var parts: seq<Word> := [0, 0, 0, 0];
    var partIndex: nat := 0;
    var done := false;
    status := 1;
    assert s[0..] == s && parts[..0] == [];
    while !done
      invariant i <= |s| && partIndex <= 3 && |parts| == 4
      invariant status == 0 || status == 1
      invariant !done ==> status == 1 && ParseFrom(s[i..], parts[..partIndex]) == ParseFrom(s, [])
      invariant done && status == 0 ==> ParseFrom(s, []) == None
      invariant done && status == 1 ==>
        ParseFrom(s, []) == if Ends(s[i..]) then Combine(parts[..partIndex], val) else None
      decreases !done, |s| - i
    {
      if !IsDigit(At(s, i)) {
        status := 0;
        done := true;
      } else {
        val, i := CollectNumber(s, i);
        if At(s, i) == DOT {
          if partIndex >= 3 {
            status := 0;
            done := true;
          } else {
            assert s[i..][1..] == s[i + 1..];
            assert parts[partIndex := val][..partIndex + 1] == parts[..partIndex] + [val];
            parts := parts[partIndex := val];
            partIndex := partIndex + 1;
            i := i + 1;
          }
        } else {
          done := true;
        }
      }
    }
    if At(s, i) != 0 && !IsSpace(At(s, i)) {
      status := 0;
    } else if partIndex == 0 {
    } else if partIndex == 1 {
      if val > 0xFF_FFFF { status := 0; }
      val := Or(val, Shl(parts[0], 0x100_0000));
    } else if partIndex == 2 {
      if val > 0xFFFF { status := 0; } else {
        val := Or(val, Or(Shl(parts[0], 0x100_0000), Shl(parts[1], 0x1_0000)));
      }
    } else {
      if val > 0xFF { status := 0; } else {
        val := Or(val, Or(Or(Shl(parts[0], 0x100_0000), Shl(parts[1], 0x1_0000)), Shl(parts[2], 0x100)));
      }
    }
    address := if status == 1 then SwapBytes(val) else before;
  }

  // ---------- what the texts mean ----------

  /** The digits the parser takes for a base: 8 and 9 too in an octal number, where they count as such. */
  predicate DigitOf(c: Byte, base: nat) {
    IsHexaDigit(c) && DigitValue(c) < if base == 8 then 10 else base
  }

  predicate DigitsOf(s: seq<Byte>, base: nat) {
    forall k :: 0 <= k < |s| ==> DigitOf(s[k], base)
  }

  /** One number in one of the three notations, with any leading zeros after an octal or hexadecimal prefix. */
  predicate Spells(t: seq<Byte>, v: nat) {
    || (t != [] && t[0] != ZERO && DigitsOf(t, 10) && Eval(t, 10) == v)
    || (t != [] && t[0] == ZERO && DigitsOf(t, 8) && Eval(t, 8) == v)
    || (|t| >= 2 && t[0] == ZERO && IsX(t[1]) && DigitsOf(t[2..], 16) && Eval(t[2..], 16) == v)
  }

  predicate NumberEnds(rest: seq<Byte>) {
    rest == [] || (!IsHexaDigit(rest[0]) && !IsX(rest[0]))
  }

  lemma EvalAppend(done: seq<Byte>, c: Byte, base: nat)
    requires AllHexa(done) && IsHexaDigit(c)
    ensures AllHexa(done + [c]) && Eval(done + [c], base) == Eval(done, base) * base + DigitValue(c)
  {
    var next := done + [c];
    assert next[..|next| - 1] == done;
  }

  lemma ReadOneDigit(x: nat, c: Byte, rest: seq<Byte>, base: nat)
    requires IsBase(base) && DigitOf(c, base)
    ensures ReadDigits([c] + rest, base, Wrap(x)) == ReadDigits(rest, base, Wrap(x * base + DigitValue(c)))
  {
    hide Or;
    var s, d := [c] + rest, DigitValue(c);
    assert s[0] == c && s[1..] == rest;
    WrapMulAdd(x, base, d);
    if !IsDigit(c) {
      OrNibble(Wrap(x), d);
    }
  }

  lemma {:induction false} ReadDigitsEvaluates(done: seq<Byte>, t: seq<Byte>, rest: seq<Byte>, base: nat)
    requires IsBase(base) && DigitsOf(done, base) && DigitsOf(t, base) && NumberEnds(rest)
    ensures ReadDigits(t + rest, base, Wrap(Eval(done, base))) == Number(Wrap(Eval(done + t, base)), rest)
    decreases |t|
  {
    hide Or, Wrap, Eval;
    if t == [] {
      assert t + rest == rest && done + t == done;
    } else {
      hide ReadDigits;
      EvalAppend(done, t[0], base);
      assert t + rest == [t[0]] + (t[1..] + rest);
      ReadOneDigit(Eval(done, base), t[0], t[1..] + rest, base);
      assert done + [t[0]] + t[1..] == done + t;
      ReadDigitsEvaluates(done + [t[0]], t[1..], rest, base);
    }
  }

  lemma DigitsAreRead(t: seq<Byte>, rest: seq<Byte>, base: nat)
    requires IsBase(base) && DigitsOf(t, base) && NumberEnds(rest)
    ensures ReadDigits(t + rest, base, 0) == Number(Wrap(Eval(t, base)), rest)
  {
    hide ReadDigits;
    assert [] + t == t && Eval([], base) == 0;
    ReadDigitsEvaluates([], t, rest, base);
  }

  lemma {:induction false} LeadingZero(t: seq<Byte>, base: nat)
    requires DigitsOf(t, base)
    ensures AllHexa([ZERO] + t) && Eval([ZERO] + t, base) == Eval(t, base)
  {
    var z := [ZERO] + t;
    if t == [] {
      assert z[..0] == [];
    } else {
      assert z[..|z| - 1] == [ZERO] + t[..|t| - 1];
      LeadingZero(t[..|t| - 1], base);
    }
  }

  lemma DecimalIsRead(t: seq<Byte>, rest: seq<Byte>)
    requires t != [] && t[0] != ZERO && DigitsOf(t, 10) && NumberEnds(rest)
    ensures IsDigit(t[0]) && ReadNumber(t + rest) == Number(Wrap(Eval(t, 10)), rest)
  {
    hide Or, Wrap, ReadDigits, Eval;
    DigitsAreRead(t, rest, 10);
  }

  lemma OctalIsRead(t: seq<Byte>, rest: seq<Byte>)
    requires t != [] && t[0] == ZERO && DigitsOf(t, 8) && NumberEnds(rest)
    ensures ReadNumber(t + rest) == Number(Wrap(Eval(t, 8)), rest)
  {
    hide Or, Wrap, ReadDigits, Eval;
    var s, digits := t + rest, t[1..];
    assert s[1..] == digits + rest;
    assert |s| > 1 ==> !IsX(s[1]) by {
      if |t| > 1 { assert IsHexaDigit(t[1]); }
    }
    DigitsAreRead(digits, rest, 8);
    LeadingZero(digits, 8);
    assert [ZERO] + digits == t;
  }

  lemma HexaIsRead(t: seq<Byte>, rest: seq<Byte>)
    requires |t| >= 2 && t[0] == ZERO && IsX(t[1]) && DigitsOf(t[2..], 16) && NumberEnds(rest)
    ensures ReadNumber(t + rest) == Number(Wrap(Eval(t[2..], 16)), rest)
  {
    hide Or, Wrap, ReadDigits, Eval;
    var s, digits := t + rest, t[2..];
    assert s[2..] == digits + rest;
    DigitsAreRead(digits, rest, 16);
  }

  lemma ReadNumberEvaluates(t: seq<Byte>, v: nat, rest: seq<Byte>)
    requires Spells(t, v) && NumberEnds(rest)
    ensures t != [] && IsDigit(t[0]) && ReadNumber(t + rest) == Number(Wrap(v), rest)
  {
    hide Or, Wrap, ReadDigits, ReadNumber;
    if t[0] != ZERO {
      DecimalIsRead(t, rest);
    } else if DigitsOf(t, 8) && Eval(t, 8) == v {
      OctalIsRead(t, rest);
    } else {
      HexaIsRead(t, rest);
    }
  }

  /** What the parser makes of hexadecimal digits when g to z are among them: 16 to 35, or-ed over the nibble before. */
  function FoldHexa(digits: seq<Byte>): Word
    requires AllHexa(digits)
  {
    if digits == [] then 0
    else Or(Shl(FoldHexa(digits[..|digits| - 1]), 16), DigitValue(digits[|digits| - 1]))
  }

  lemma FoldAppend(done: seq<Byte>, c: Byte)
    requires AllHexa(done) && IsHexaDigit(c)
    ensures AllHexa(done + [c]) && FoldHexa(done + [c]) == Or(Shl(FoldHexa(done), 16), DigitValue(c))
  {
    hide Or, Shl;
    var next := done + [c];
    assert next[..|next| - 1] == done;
  }

  /** For the digits proper it is their value. */
  lemma {:induction false} FoldIsEval(digits: seq<Byte>)
    requires DigitsOf(digits, 16)
    ensures FoldHexa(digits) == Wrap(Eval(digits, 16))
  {
    hide Or, Shl, Wrap;
    if digits == [] {
      WrapSmall(0);
    } else {
      var init, d := digits[..|digits| - 1], DigitValue(digits[|digits| - 1]);
      FoldIsEval(init);
      OrNibble(FoldHexa(init), d);
      WrapMulAdd(Eval(init, 16), 16, d);
    }
  }

  lemma ReadOneHexa(val: Word, c: Byte, rest: seq<Byte>)
    requires IsHexaDigit(c)
    ensures ReadDigits([c] + rest, 16, val) == ReadDigits(rest, 16, Or(Shl(val, 16), DigitValue(c)))
  {
    hide Or, Shl, Wrap;
    var s := [c] + rest;
    assert s[0] == c && s[1..] == rest;
    if IsDigit(c) {
      OrNibble(val, DigitValue(c));
    }
  }

  lemma {:induction false} HexaIsFolded(done: seq<Byte>, t: seq<Byte>, rest: seq<Byte>)
    requires AllHexa(done) && AllHexa(t) && NumberEnds(rest)
    ensures AllHexa(done + t) && ReadDigits(t + rest, 16, FoldHexa(done)) == Number(FoldHexa(done + t), rest)
    decreases |t|
  {
    hide Or, Shl, Wrap, FoldHexa;
    if t == [] {
      assert t + rest == rest && done + t == done;
    } else {
      hide ReadDigits;
      FoldAppend(done, t[0]);
      assert t + rest == [t[0]] + (t[1..] + rest);
      ReadOneHexa(FoldHexa(done), t[0], t[1..] + rest);
      assert done + [t[0]] + t[1..] == done + t;
      HexaIsFolded(done + [t[0]], t[1..], rest);
    }
  }

  predicate SpellsHexa(t: seq<Byte>, w: Word) {
    |t| >= 2 && t[0] == ZERO && IsX(t[1]) && AllHexa(t[2..]) && FoldHexa(t[2..]) == w
  }

  lemma FoldedIsRead(t: seq<Byte>, w: Word, rest: seq<Byte>)
    requires SpellsHexa(t, w) && NumberEnds(rest)
    ensures ReadNumber(t + rest) == Number(w, rest)
  {
    FoldNone();
    hide Or, ReadDigits, FoldHexa;
    var s, digits := t + rest, t[2..];
    assert s[2..] == digits + rest && [] + digits == digits;
    HexaIsFolded([], digits, rest);
  }

  lemma FoldNone()
    ensures FoldHexa([]) == 0
  {
  }

  /** One number, of which a 32-bit variable keeps w: with any value in one of the notations, or in hexadecimal with
      letters beyond f. */
  ghost predicate SpellsWord(t: seq<Byte>, w: Word) {
    SpellsHexa(t, w) || exists n: nat :: Spells(t, n) && Wrap(n) == w
  }

  ghost predicate AllSpell(tokens: seq<seq<Byte>>, vals: seq<Word>) {
    |tokens| == |vals| && forall k :: 0 <= k < |tokens| ==> SpellsWord(tokens[k], vals[k])
  }

  lemma ReadWord(t: seq<Byte>, w: Word, rest: seq<Byte>)
    requires SpellsWord(t, w) && NumberEnds(rest)
    ensures t != [] && IsDigit(t[0]) && ReadNumber(t + rest) == Number(w, rest)
  {
    hide Spells, ReadNumber, Wrap, FoldHexa;
    if SpellsHexa(t, w) {
      FoldedIsRead(t, w, rest);
    } else {
      var n: nat :| Spells(t, n) && Wrap(n) == w;
      ReadNumberEvaluates(t, n, rest);
    }
  }

  lemma {:induction false} PartsAreRead(tokens: seq<seq<Byte>>, vals: seq<Word>, tail: seq<Byte>, parts: seq<Word>)
    requires AllSpell(tokens, vals) && 1 <= |tokens| && |parts| + |tokens| <= 4 && Ends(tail)
    ensures ParseFrom(Join(tokens, DOT) + tail, parts) == Combine(parts + vals[..|vals| - 1], vals[|vals| - 1])
    decreases |tokens|
  {
    hide Or, ReadNumber, SpellsWord;
    var s := Join(tokens, DOT) + tail;
    if |tokens| == 1 {
      ReadWord(tokens[0], vals[0], tail);
      assert parts + vals[..0] == parts;
    } else {
      var rest := [DOT] + Join(tokens[1..], DOT) + tail;
      assert s == tokens[0] + rest;
      ReadWord(tokens[0], vals[0], rest);
      assert rest[1..] == Join(tokens[1..], DOT) + tail;
      PartsAreRead(tokens[1..], vals[1..], tail, parts + [vals[0]]);
      assert parts + [vals[0]] + vals[1..][..|vals| - 2] == parts + vals[..|vals| - 1];
    }
  }

  /** a is 32 bits, a.b is 8.24, a.b.c is 8.8.16 and a.b.c.d is 8.8.8.8. */
  function Positional(vals: seq<nat>): nat
    requires 1 <= |vals| <= 4
  {
    match |vals|
    case 1 => vals[0]
    case 2 => vals[0] * 0x100_0000 + vals[1]
    case 3 => vals[0] * 0x100_0000 + vals[1] * 0x1_0000 + vals[2]
    case 4 => vals[0] * 0x100_0000 + vals[1] * 0x1_0000 + vals[2] * 0x100 + vals[3]
  }

  predicate LastFits(vals: seq<nat>)
    requires 1 <= |vals| <= 4
  {
    var last := vals[|vals| - 1];
    match |vals|
    case 1 => true
    case 2 => last <= 0xFF_FFFF
    case 3 => last <= 0xFFFF
    case 4 => last <= 0xFF
  }

  predicate EarlyPartsFit(vals: seq<nat>) {
    forall k :: 0 <= k < |vals| - 1 ==> vals[k] <= 0xFF
  }

  /** Early parts may be over 255: nothing is lost as long as no bit leaves the word and no two parts share one. */
  predicate PartsApart(vals: seq<nat>)
    requires 1 <= |vals| <= 4
  {
    match |vals|
    case 1 => true
    case 2 => vals[0] <= 0xFF
    case 3 => vals[0] <= 0xFF && vals[1] <= 0xFFFF && BitAnd(vals[0] * 0x100_0000, vals[1] * 0x1_0000) == 0
    case 4 =>
      && vals[0] <= 0xFF && vals[1] <= 0xFFFF && vals[2] <= 0xFF_FFFF
      && BitAnd(vals[0] * 0x100_0000, vals[1] * 0x1_0000) == 0
      && BitAnd(vals[0] * 0x100_0000 + vals[1] * 0x1_0000, vals[2] * 0x100) == 0
  }

  /** The last part, below the place of the others, always adds. */
  lemma LastAdds(high: nat, low: Word, p: nat, top: Word)
    requires PowerOfTwo(p) && low < p && top == high * p && top + p <= 0x1_0000_0000
    ensures Or(low, top) == top + low
  {
    OrAdds(high, low, p, top);
  }

  lemma TwoParts(p0: Word, v: Word)
    requires v <= 0xFF_FFFF
    ensures Or(v, Shl(p0, 0x100_0000)) == p0 * 0x100_0000 + v <==> p0 <= 0xFF
  {
    hide BitOr, Or, Shl;
    ShlAtMost(p0, 0x100_0000);
    OrAtMost(v, Shl(p0, 0x100_0000));
    Powers();
    if p0 <= 0xFF {
      LastAdds(p0, v, 0x100_0000, p0 * 0x100_0000);
    }
  }

  lemma ThreeParts(p0: Word, p1: Word, v: Word)
    requires v <= 0xFFFF
    ensures Or(v, Or(Shl(p0, 0x100_0000), Shl(p1, 0x1_0000))) == p0 * 0x100_0000 + p1 * 0x1_0000 + v
       <==> p0 <= 0xFF && p1 <= 0xFFFF && BitAnd(p0 * 0x100_0000, p1 * 0x1_0000) == 0
  {
    hide BitOr, BitAnd, Or, Shl;
    var w0, w1 := Shl(p0, 0x100_0000), Shl(p1, 0x1_0000);
    ShlAtMost(p0, 0x100_0000);
    ShlAtMost(p1, 0x1_0000);
    OrAtMost(w0, w1);
    OrAtMost(v, Or(w0, w1));
    Powers();
    if p0 <= 0xFF && p1 <= 0xFFFF && BitAnd(p0 * 0x100_0000, p1 * 0x1_0000) == 0 {
      LastAdds(p0 * 0x100 + p1, v, 0x1_0000, Or(w0, w1));
    }
  }

  lemma FourParts(p0: Word, p1: Word, p2: Word, v: Word)
    requires v <= 0xFF
    ensures Or(v, Or(Or(Shl(p0, 0x100_0000), Shl(p1, 0x1_0000)), Shl(p2, 0x100)))
            == p0 * 0x100_0000 + p1 * 0x1_0000 + p2 * 0x100 + v
       <==> PartsApart([p0, p1, p2, v])
  {
    hide BitOr, BitAnd, Or, Shl;
    var w0, w1, w2 := Shl(p0, 0x100_0000), Shl(p1, 0x1_0000), Shl(p2, 0x100);
    ShlAtMost(p0, 0x100_0000);
    ShlAtMost(p1, 0x1_0000);
    ShlAtMost(p2, 0x100);
    OrAtMost(w0, w1);
    OrAtMost(Or(w0, w1), w2);
    OrAtMost(v, Or(Or(w0, w1), w2));
    Powers();
    if PartsApart([p0, p1, p2, v]) {
      LastAdds(p0 * 0x1_0000 + p1 * 0x100 + p2, v, 0x100, Or(Or(w0, w1), w2));
    }
  }

  /** The parts are accepted exactly when the last one fits its form; the value is the positional one exactly when
      no early part loses a bit. */
  lemma CombineIsPositional(vals: seq<Word>)
    requires 1 <= |vals| <= 4
    ensures var r := Combine(vals[..|vals| - 1], vals[|vals| - 1]);
            (r.Some? <==> LastFits(vals))
            && (r.Some? ==> (r.value == Positional(vals) <==> PartsApart(vals)))
  {
    hide Or, Shl, BitAnd;
    if LastFits(vals) {
      match |vals|
      case 1 =>
      case 2 => TwoParts(vals[0], vals[1]);
      case 3 => ThreeParts(vals[0], vals[1], vals[2]);
      case 4 =>
        FourParts(vals[0], vals[1], vals[2], vals[3]);
        assert vals == [vals[0], vals[1], vals[2], vals[3]];
    }
  }

  /** Parts in range are apart. */
  lemma EarlyPartsAreApart(vals: seq<Word>)
    requires 1 <= |vals| <= 4 && EarlyPartsFit(vals)
    ensures PartsApart(vals)
  {
    hide BitOr, BitAnd, Or;
    Powers();
    if |vals| >= 3 {
      var w0, w1 := vals[0] * 0x100_0000, vals[1] * 0x1_0000;
      OrAdds(vals[0], w1, 0x100_0000, w0);
      OrAtMost(w0, w1);
      if |vals| == 4 {
        OrAdds(vals[0] * 0x100 + vals[1], vals[2] * 0x100, 0x1_0000, w0 + w1);
        OrAtMost(w0 + w1, vals[2] * 0x100);
      }
    }
  }

  /** Texts that spell the same parts mean the same, however they spell them and whatever follows the white space. */
  lemma {:induction false} SpellingIsIrrelevant(
      tokens: seq<seq<Byte>>, tail: seq<Byte>, others: seq<seq<Byte>>, tail': seq<Byte>, vals: seq<Word>)
    requires AllSpell(tokens, vals) && AllSpell(others, vals) && 1 <= |vals| <= 4 && Ends(tail) && Ends(tail')
    ensures Meaning(Join(tokens, DOT) + tail) == Meaning(Join(others, DOT) + tail')
  {
    hide SpellsWord;
    PartsAreRead(tokens, vals, tail, []);
    PartsAreRead(others, vals, tail', []);
  }

  /**
   * A text of one to four spelled parts is accepted if and only if the last part fits its form. The address is then
   * the positional value if and only if the early parts lose no bit, which parts up to 255 never do.
   */
  lemma {:induction false} MeaningOfParts(tokens: seq<seq<Byte>>, vals: seq<Word>, tail: seq<Byte>)
    requires AllSpell(tokens, vals) && 1 <= |tokens| <= 4 && Ends(tail)
    ensures var r := Meaning(Join(tokens, DOT) + tail);
            && (r.Some? <==> LastFits(vals))
            && (r.Some? ==> (SwapBytes(r.value) == Positional(vals) <==> PartsApart(vals)))
            && (EarlyPartsFit(vals) ==> PartsApart(vals))
  {
    hide SpellsWord, Or, SwapBytes, PartsApart, EarlyPartsFit;
    PartsAreRead(tokens, vals, tail, []);
    assert [] + vals[..|vals| - 1] == vals[..|vals| - 1];
    CombineIsPositional(vals);
    var host := Combine(vals[..|vals| - 1], vals[|vals| - 1]);
    if host.Some? {
      SwapBytesTwice(host.value);
    }
    if EarlyPartsFit(vals) {
      EarlyPartsAreApart(vals);
    }
  }

  /** 256.0.0.0 is accepted, as 0.0.0.0: the part's only bit leaves the word. */
  lemma LargePartIsAccepted()
    ensures var tokens := [[50, 53, 54], [ZERO], [ZERO], [ZERO]];
            Meaning(Join(tokens, DOT) + []) == Some(0)
  {
    hide Spells, Eval, SpellsWord, Or, Shl;
    var tokens: seq<seq<Byte>> := [[50, 53, 54], [ZERO], [ZERO], [ZERO]];
    SpelledExamples();
    PartsAreRead(tokens, [256, 0, 0, 0], [], []);
    assert [] + [256, 0, 0, 0][..3] == [256, 0, 0];
    assert [256, 0, 0, 0][3] == 0;
    NothingLeft();
  }

  lemma SpelledExamples()
    ensures SpellsWord([50, 53, 54], 256) && SpellsWord([ZERO], 0)
  {
    assert Eval([50, 53, 54], 10) == 256 by {
      assert Eval([], 10) == 0;
      assert [50][..0] == [] && [50, 53][..1] == [50] && [50, 53, 54][..2] == [50, 53];
      assert Eval([50], 10) == 2 && Eval([50, 53], 10) == 25;
    }
    assert Eval([ZERO], 8) == 0 by {
      assert [ZERO][..0] == [];
    }
    hide Eval;
    assert Spells([50, 53, 54], 256) && Spells([ZERO], 0);
    assert Wrap(256) == 256 && Wrap(0) == 0;
  }

  lemma NothingLeft()
    ensures Shl(256, 0x100_0000) == 0 && Shl(0, 0x1_0000) == 0 && Shl(0, 0x100) == 0 && Or(0, 0) == 0
  {
  }
}
