/** Every text the dotted-number parser accepts is one to four spelled numbers, and what may follow them. */
module Ipv4Coverage {
  import opened Words
  import opened Text
  import opened Ipv4Parser

  lemma ReadStops(s: seq<Byte>, base: nat, val: Word)
    requires (base == 8 || base == 10) && !(s != [] && IsDigit(s[0]))
    ensures ReadDigits(s, base, val) == Number(val, s)
  {
    hide Or, Wrap;
  }

  lemma DigitFits(c: Byte, base: nat)
    requires IsDigit(c) && (base == 8 || base == 10)
    ensures DigitOf(c, base)
  {
  }

  lemma DigitsJoin(a: seq<Byte>, b: seq<Byte>, base: nat)
    requires DigitsOf(a, base) && DigitsOf(b, base)
    ensures DigitsOf(a + b, base)
  {
    hide DigitOf;
  }

  /** Where a run of digits has been read to, the text splits into the run and the rest. */
  lemma {:induction false} SplitDigits(done: seq<Byte>, s: seq<Byte>, base: nat) returns (t: seq<Byte>)
    requires (base == 8 || base == 10) && DigitsOf(done, base)
    ensures DigitsOf(done + t, base) && DigitsOf(t, base)
    ensures var r := ReadDigits(s, base, Wrap(Eval(done, base)));
            s == t + r.rest && r.value == Wrap(Eval(done + t, base))
    decreases |s|
  {
    hide Wrap, Eval, Or, ReadDigits, DigitOf;
    if s != [] && IsDigit(s[0]) {
      var first := [s[0]];
      DigitFits(s[0], base);
      DigitsJoin(done, first, base);
      assert first + s[1..] == s;
      DigitsAreHexa(done, base);
      EvalAppend(done, s[0], base);
      ReadOneDigit(Eval(done, base), s[0], s[1..], base);
      var more := SplitDigits(done + first, s[1..], base);
      t := first + more;
      assert done + first + more == done + t;
      DigitsJoin(first, more, base);
    } else {
      t := [];
      DigitsAreHexa(done, base);
      ReadStops(s, base, Wrap(Eval(done, base)));
      assert done + [] == done && [] + s == s;
    }
  }

  lemma DigitsAreHexa(s: seq<Byte>, base: nat)
    requires DigitsOf(s, base)
    ensures AllHexa(s)
  {
  }

  lemma {:induction false} SplitHexa(done: seq<Byte>, s: seq<Byte>) returns (t: seq<Byte>)
    requires AllHexa(done)
    ensures AllHexa(done + t) && AllHexa(t)
    ensures var r := ReadDigits(s, 16, FoldHexa(done)); s == t + r.rest && r.value == FoldHexa(done + t)
    decreases |s|
  {
    hide Wrap, FoldHexa, Or;
    if s != [] && IsHexaDigit(s[0]) {
      assert [s[0]] + s[1..] == s;
      FoldAppend(done, s[0]);
      ReadOneHexa(FoldHexa(done), s[0], s[1..]);
      hide ReadDigits;
      t := SplitHexa(done + [s[0]], s[1..]);
      assert done + [s[0]] + t == done + ([s[0]] + t);
      t := [s[0]] + t;
    } else {
      t := [];
      assert done + [] == done && [] + s == s;
    }
  }

  lemma EvalNone(base: nat)
    ensures Wrap(Eval([], base)) == 0 && FoldHexa([]) == 0
  {
  }

  /** A number that is read is spelled by the characters read. */
  lemma SplitNumber(s: seq<Byte>) returns (t: seq<Byte>)
    requires s != [] && IsDigit(s[0])
    ensures SpellsWord(t, ReadNumber(s).value) && s == t + ReadNumber(s).rest
  {
    hide ReadDigits, Eval, FoldHexa, Wrap, Or;
    EvalNone(10);
    EvalNone(8);
    if s[0] != ZERO {
      t := SplitDigits([], s, 10);
      assert [] + t == t;
      if t == [] {
        DigitIsTaken(s);
        assert false;
      }
      assert Spells(t, Eval(t, 10));
    } else if |s| > 1 && IsX(s[1]) {
      var digits := SplitHexa([], s[2..]);
      assert [] + digits == digits;
      t := s[..2] + digits;
      assert t[2..] == digits;
      assert SpellsHexa(t, ReadNumber(s).value);
    } else {
      var digits := SplitDigits([], s[1..], 8);
      assert [] + digits == digits;
      LeadingZero(digits, 8);
      t := [ZERO] + digits;
      assert Spells(t, Eval(t, 8));
    }
  }

  lemma DigitIsTaken(s: seq<Byte>)
    requires s != [] && IsDigit(s[0])
    ensures |ReadDigits(s, 10, 0).rest| < |s|
  {
  }

  /** What is accepted after some parts is more spelled parts, up to four in all. */
  lemma {:induction false} AcceptedFrom(s: seq<Byte>, parts: seq<Word>)
      returns (tokens: seq<seq<Byte>>, vals: seq<Word>, tail: seq<Byte>)
    requires |parts| <= 3 && ParseFrom(s, parts).Some?
    ensures AllSpell(tokens, vals) && 1 <= |tokens| && |parts| + |tokens| <= 4
    ensures Ends(tail) && s == Join(tokens, DOT) + tail
    decreases |s|
  {
    hide ReadNumber, SpellsWord, Combine;
    var t := SplitNumber(s);
    var n := ReadNumber(s);
    if n.rest != [] && n.rest[0] == DOT {
      tokens, vals, tail := AcceptedFrom(n.rest[1..], parts + [n.value]);
      JoinCons(t, tokens, DOT);
      assert s == t + [DOT] + Join(tokens, DOT) + tail;
      tokens, vals := [t] + tokens, [n.value] + vals;
    } else {
      tokens, vals, tail := [t], [n.value], n.rest;
    }
  }

  /** So, with MeaningOfParts, the accepted texts are exactly those of one to four spelled parts whose last part fits. */
  lemma {:induction false} AcceptedIsSpelled(s: seq<Byte>)
      returns (tokens: seq<seq<Byte>>, vals: seq<Word>, tail: seq<Byte>)
    requires Meaning(s).Some?
    ensures AllSpell(tokens, vals) && 1 <= |tokens| <= 4 && LastFits(vals) && Ends(tail)
    ensures s == Join(tokens, DOT) + tail
  {
    hide ParseFrom, SpellsWord;
    tokens, vals, tail := AcceptedFrom(s, []);
    MeaningOfParts(tokens, vals, tail);
  }
}
