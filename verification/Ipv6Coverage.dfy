/** Every text of colons and hexadecimal digits is covered: it is a list of parts, or has ":::" and is rejected. */
module Ipv6Coverage {
  import opened Words
  import opened Text
  import opened Ipv6Parser
  import opened Ipv6Spelling

  predicate TripleAt(t: seq<Byte>, i: nat) {
    i + 2 < |t| && t[i] == COLON && t[i + 1] == COLON && t[i + 2] == COLON
  }

  ghost predicate NoTriple(t: seq<Byte>) {
    forall i: nat :: !TripleAt(t, i)
  }

  lemma {:induction false} ScanRejectsTriple(t: seq<Byte>, i: nat, closed: seq<Word>, value: Word, zeros: Word)
    requires HexaOrColon(t) && TripleAt(t, i) && |closed| <= 7
    ensures Scan(t, closed, value, zeros, false) == None
    decreases |t|
  {
    hide Scan, Wrap, NoBlocks;
    assert t[0..] == t;
    if t[0] == COLON {
      ScanAtColon(t, 0, closed, value, zeros, false);
      var blocks := closed + [value];
      if ColonAt(t, 1) && !ColonAt(t, 2) && |blocks| + zeros <= 7 {
        assert TripleAt(t[2..], i - 2);
        ScanRejectsTriple(t[2..], i - 2, blocks + NoBlocks(zeros), 0, 0);
      } else if !ColonAt(t, 1) && |blocks| <= 7 {
        assert TripleAt(t[1..], i - 1);
        ScanRejectsTriple(t[1..], i - 1, blocks, 0, zeros);
      }
    } else {
      ScanElsewhere(t, 0, closed, value, zeros, false);
      assert TripleAt(t[1..], i - 1);
      ScanRejectsTriple(t[1..], i - 1, closed, Wrap(value * 16 + DigitValue(t[0])), zeros);
    }
  }

  lemma TripleIsRejected(t: seq<Byte>, i: nat)
    requires HexaOrColon(t) && TripleAt(t, i)
    ensures Meaning(t) == None
  {
    hide Scan, CountColons;
    CountIsColonsBeforeLetter(t, 8);
    ScanRejectsTriple(t, i, [], 0, Wrap(8 - ColonsBeforeLetter(t)));
  }

  /** The parts of a text one character longer at the front. */
  function Extend(c: Byte, parts: seq<Part>): seq<Part>
    requires Wellformed(parts, true)
  {
    var part := parts[0];
    if c != COLON then [[[c] + part[0]] + part[1..]] + parts[1..]
    else if part[0] != [] || (|part| == 1 && |parts| == 1) then [[[]] + part] + parts[1..]
    else [[[]], part[1..]] + parts[1..]
  }

  lemma TextStart(parts: seq<Part>)
    requires Wellformed(parts, true)
    ensures var t, part := TextOf(parts, true), parts[0];
            && (part[0] != [] ==> t != [] && t[0] == part[0][0])
            && (part[0] == [] && |part| == 1 ==> t == (if |parts| == 1 then [] else
                  [COLON, COLON] + TextOf(parts[1..], false)))
            && (part[0] == [] && |part| > 1 ==> t != [] && t[0] == COLON)
  {
    if parts[0][0] == [] && |parts[0]| == 1 {
      assert Join(parts[0], COLON) == [];
    }
  }

  lemma JoinGrow(c: Byte, first: seq<Byte>, others: Part)
    ensures Join([[c] + first] + others, COLON) == [c] + Join([first] + others, COLON)
  {
    if |others| == 0 {
      assert [[c] + first] + others == [[c] + first] && [first] + others == [first];
    } else {
      JoinCons([c] + first, others, COLON);
      JoinCons(first, others, COLON);
      hide Join;
      assert [c] + (first + [COLON] + Join(others, COLON)) == [c] + first + [COLON] + Join(others, COLON);
    }
  }

  lemma ExtendHexa(c: Byte, parts: seq<Part>)
    requires Wellformed(parts, true) && IsHexaDigit(c)
    ensures var more := Extend(c, parts);
            Wellformed(more, true) && TextOf(more, true) == [c] + TextOf(parts, true)
  {
    var part := parts[0];
    var grown := [[c] + part[0]] + part[1..];
    var more := Extend(c, parts);
    assert c != COLON && more[0] == grown && more[1..] == parts[1..];
    assert PartOk(grown, true, |parts| == 1);
    hide Join;
    JoinGrow(c, part[0], part[1..]);
    assert [part[0]] + part[1..] == part;
  }

  lemma EmptyGroupFirst(part: Part, last: bool)
    requires PartOk(part, true, last) && (part[0] != [] || (|part| == 1 && last))
    ensures PartOk([[]] + part, true, last)
  {
    var more := [[]] + part;
    assert forall k :: 1 <= k < |more| ==> more[k] == part[k - 1];
  }

  lemma ExtendColonSingle(parts: seq<Part>)
    requires Wellformed(parts, true)
    requires parts[0][0] != [] || (|parts[0]| == 1 && |parts| == 1)
    ensures var more := Extend(COLON, parts);
            Wellformed(more, true) && TextOf(more, true) == [COLON] + TextOf(parts, true)
  {
    var part, more := parts[0], Extend(COLON, parts);
    EmptyGroupFirst(part, |parts| == 1);
    JoinCons([], part, COLON);
    hide Join, PartOk;
    assert more[0] == [[]] + part && more[1..] == parts[1..];
    assert [] + [COLON] + Join(part, COLON) == [COLON] + Join(part, COLON);
  }

  /** A text that begins with one colon, taken as what a "::" would leave. */
  lemma DropColon(parts: seq<Part>)
    requires Wellformed(parts, true) && parts[0][0] == [] && |parts[0]| > 1
    ensures var rest := [parts[0][1..]] + parts[1..];
            Wellformed(rest, false) && TextOf(parts, true) == [COLON] + TextOf(rest, false)
  {
    var part := parts[0];
    var rest := [part[1..]] + parts[1..];
    hide Join;
    JoinCons([], part[1..], COLON);
    assert part == [[]] + part[1..];
    assert rest[1..] == parts[1..] && PartOk(part[1..], false, |parts| == 1);
    assert [] + [COLON] + Join(part[1..], COLON) == [COLON] + Join(part[1..], COLON);
  }

  lemma EmptyPart()
    ensures PartOk([[]], true, false) && Join([[]], COLON) == []
  {
  }

  /** An empty part in front. */
  lemma GapFirst(rest: seq<Part>)
    requires Wellformed(rest, false)
    ensures Wellformed([[[]]] + rest, true)
    ensures TextOf([[[]]] + rest, true) == [COLON, COLON] + TextOf(rest, false)
  {
    hide PartOk, Join;
    EmptyPart();
    var more := [[[]]] + rest;
    assert more[1..] == rest && more[0] == [[]] && |more| > 1;
    assert [] + [COLON, COLON] == [COLON, COLON];
  }

  lemma ExtendColonDouble(parts: seq<Part>)
    requires Wellformed(parts, true) && parts[0][0] == [] && |parts[0]| > 1
    ensures var more := Extend(COLON, parts);
            Wellformed(more, true) && TextOf(more, true) == [COLON] + TextOf(parts, true)
  {
    var more, rest := Extend(COLON, parts), [parts[0][1..]] + parts[1..];
    assert more == [[[]]] + rest;
    hide Wellformed, TextOf, Extend;
    DropColon(parts);
    GapFirst(rest);
    assert [COLON, COLON] + TextOf(rest, false) == [COLON] + ([COLON] + TextOf(rest, false));
  }

  lemma ExtendColon(parts: seq<Part>)
    requires Wellformed(parts, true)
    requires var t := TextOf(parts, true); !(|t| > 1 && t[0] == COLON && t[1] == COLON)
    ensures var more := Extend(COLON, parts);
            Wellformed(more, true) && TextOf(more, true) == [COLON] + TextOf(parts, true)
  {
    TextStart(parts);
    hide TextOf, Extend;
    if parts[0][0] != [] || (|parts[0]| == 1 && |parts| == 1) {
      ExtendColonSingle(parts);
    } else {
      ExtendColonDouble(parts);
    }
  }

  /** Together with TripleIsRejected and MeaningOfText: the parser's verdict on every such text. */
  lemma {:induction false} PartsOf(t: seq<Byte>) returns (parts: seq<Part>)
    requires HexaOrColon(t) && NoTriple(t)
    ensures Wellformed(parts, true) && TextOf(parts, true) == t
  {
    if t == [] {
      parts := [[[]]];
      assert PartOk(parts[0], true, true);
    } else {
      var rest := t[1..];
      assert HexaOrColon(rest);
      forall i: nat ensures !TripleAt(rest, i) {
        assert !TripleAt(t, i + 1);
      }
      assert !TripleAt(t, 0);
      assert t == [t[0]] + rest;
      hide Wellformed, TextOf, Extend;
      parts := PartsOf(rest);
      if t[0] == COLON {
        ExtendColon(parts);
      } else {
        ExtendHexa(t[0], parts);
      }
      parts := Extend(t[0], parts);
    }
  }

  /** 1::2::A:3, with two "::", is accepted: the letter hides the colon that would make it one too many, and the
      four zeros all go to the first "::". */
  lemma TwoGapsAreAccepted()
    ensures Meaning([49, 58, 58, 50, 58, 58, 65, 58, 51]) == Some(ToNetwork([1, 0, 0, 0, 0, 2, 0xA, 3]))
  {
    hide Meaning, ToNetwork, TextOf, AllValues, ColonsBeforeLetter, Values, NoBlocks;
    ExampleText();
    ExampleValues();
    ExampleColons();
    MeaningOfText(EXAMPLE);
    FourZeros();
  }

  const EXAMPLE: seq<Part> := [[[49]], [[50]], [[65], [51]]]

  lemma FourZeros()
    ensures [1] + NoBlocks(4) + [2, 0xA, 3] == [1, 0, 0, 0, 0, 2, 0xA, 3]
  {
  }

  lemma ExampleColons()
    ensures ColonsBeforeLetter([49, 58, 58, 50, 58, 58, 65, 58, 51]) == 4
  {
    assert ColonsBeforeLetter([65, 58, 51]) == 0;
    assert [50, 58, 58, 65, 58, 51][1..] == [58, 58, 65, 58, 51];
    assert ColonsBeforeLetter([58, 58, 65, 58, 51]) == 2 by {
      assert [58, 58, 65, 58, 51][1..] == [58, 65, 58, 51] && [58, 65, 58, 51][1..] == [65, 58, 51];
      assert ColonsBeforeLetter([58, 65, 58, 51]) == 1;
    }
    assert ColonsBeforeLetter([50, 58, 58, 65, 58, 51]) == 2;
    var t: seq<Byte> := [49, 58, 58, 50, 58, 58, 65, 58, 51];
    assert t[1..][1..][1..] == [50, 58, 58, 65, 58, 51];
    assert ColonsBeforeLetter(t[1..][1..]) == 3 && ColonsBeforeLetter(t[1..]) == 4;
  }

  lemma ExampleText()
    ensures Wellformed(EXAMPLE, true) && TextOf(EXAMPLE, true) == [49, 58, 58, 50, 58, 58, 65, 58, 51]
  {
    var parts := EXAMPLE;
    assert Join([[65], [51]], COLON) == [65, 58, 51];
    assert parts[1..] == [[[50]], [[65], [51]]] && parts[1..][1..] == [[[65], [51]]];
    assert TextOf(parts[1..], false) == [50, 58, 58, 65, 58, 51];
  }

  lemma ExampleValues()
    ensures Wellformed(EXAMPLE, true)
    ensures Values(EXAMPLE[0]) == [1] && AllValues(EXAMPLE[1..], false) == [2, 0xA, 3]
    ensures |AllValues(EXAMPLE, true)| == 4
  {
    ExampleText();
    var parts := EXAMPLE;
    assert parts[1..] == [[[50]], [[65], [51]]] && parts[1..][1..] == [[[65], [51]]];
    OneDigit(49);
    OneDigit(50);
    OneDigit(51);
    OneDigit(65);
    hide Value;
    assert AllValues(parts[1..], false) == Values([[50]]) + Values([[65], [51]]);
  }

  lemma OneDigit(c: Byte)
    requires IsHexaDigit(c) && DigitValue(c) < 0x10
    ensures AllHexa([c]) && Value([c]) == DigitValue(c)
  {
    assert [c][..0] == [] && [c][|[c]| - 1] == c;
    assert Eval([c], 16) == DigitValue(c);
    WrapSmall(DigitValue(c));
  }
}
