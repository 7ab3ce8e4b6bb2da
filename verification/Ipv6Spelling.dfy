/**
 * Colon-hexadecimal texts as lists of digit groups, with any number of "::", and what the parser makes of every
 * one of them: which it accepts and which four words it returns.
 */
module Ipv6Spelling {
  import opened Words
  import opened Text
  import opened Ipv6Parser
  import V4 = Ipv4Parser

  /** Groups joined by single colons. */
  type Part = seq<seq<Byte>>

  predicate AllGroups(groups: seq<seq<Byte>>) {
    |groups| > 0 && forall k :: 0 <= k < |groups| ==> AllHexa(groups[k])
  }

  function Value(g: seq<Byte>): Word
    requires AllHexa(g)
  {
    Wrap(Eval(g, 16))
  }

  function Values(groups: seq<seq<Byte>>): (v: seq<Word>)
    requires forall k :: 0 <= k < |groups| ==> AllHexa(groups[k])
    ensures |v| == |groups|
  {
    seq(|groups|, k requires 0 <= k < |groups| => Value(groups[k]))
  }

  /** Every group is written out, but the text as a whole may begin or end with an empty one. */
  predicate PartOk(part: Part, first: bool, last: bool) {
    AllGroups(part) &&
    forall k :: 0 <= k < |part| ==> part[k] != [] || (first && k == 0) || (last && k == |part| - 1)
  }

  /** Parts with a "::" between neighbours: any text of colons and hexadecimal digits without ":::". */
  predicate Wellformed(parts: seq<Part>, first: bool) {
    |parts| > 0 && PartOk(parts[0], first, |parts| == 1) && (|parts| > 1 ==> Wellformed(parts[1..], false))
  }

  function TextOf(parts: seq<Part>, first: bool): seq<Byte>
    requires Wellformed(parts, first)
  {
    if |parts| == 1 then Join(parts[0], COLON)
    else Join(parts[0], COLON) + [COLON, COLON] + TextOf(parts[1..], false)
  }

  function AllValues(parts: seq<Part>, first: bool): (v: seq<Word>)
    requires Wellformed(parts, first)
    ensures |v| >= |parts|
  {
    if |parts| == 1 then Values(parts[0]) else Values(parts[0]) + AllValues(parts[1..], false)
  }

  // ---------- the scan over groups ----------

  lemma {:induction false} ScanGroup(done: seq<Byte>, g: seq<Byte>, rest: seq<Byte>,
                                     closed: seq<Word>, zeros: Word)
    requires AllHexa(done) && AllHexa(g) && |closed| <= 7
    ensures AllHexa(done + g)
    ensures Scan(g + rest, closed, Value(done), zeros, false) == Scan(rest, closed, Value(done + g), zeros, false)
    decreases |g|
  {
    if g == [] {
      assert g + rest == rest && done + g == done;
    } else {
      var s, next := g + rest, done + [g[0]];
      V4.EvalAppend(done, g[0], 16);
      WrapMulAdd(Eval(done, 16), 16, DigitValue(g[0]));
      assert s[0] == g[0] && s[1..] == g[1..] + rest;
      ScanElsewhere(s, 0, closed, Value(done), zeros, false);
      assert s[0..] == s;
      assert next + g[1..] == done + g;
      hide Scan, Wrap, Eval;
      ScanGroup(next, g[1..], rest, closed, zeros);
    }
  }

  lemma ScanFirstGroup(g: seq<Byte>, rest: seq<Byte>, closed: seq<Word>, zeros: Word)
    requires AllHexa(g) && |closed| <= 7
    ensures Scan(g + rest, closed, 0, zeros, false) == Scan(rest, closed, Value(g), zeros, false)
  {
    assert [] + g == g && Value([]) == 0;
    ScanGroup([], g, rest, closed, zeros);
  }

  lemma ValuesCons(groups: seq<seq<Byte>>)
    requires AllGroups(groups)
    ensures Values(groups) == [Value(groups[0])] + Values(groups[1..])
  {
    hide Value;
  }

  lemma JoinStart(groups: seq<seq<Byte>>)
    requires AllGroups(groups) && (|groups| > 1 ==> groups[0] != [])
    ensures var t := Join(groups, COLON); t == [] || IsHexaDigit(t[0])
  {
    if |groups| > 1 { assert Join(groups, COLON)[0] == groups[0][0]; }
  }

  /** Groups up to the end of the text. */
  lemma {:induction false} ScanToEnd(groups: seq<seq<Byte>>, closed: seq<Word>, zeros: Word)
    requires AllGroups(groups) && |closed| <= 7
    requires forall k :: 0 < k < |groups| - 1 ==> groups[k] != []
    ensures Scan(Join(groups, COLON), closed, 0, zeros, false) ==
            if |closed| + |groups| == 8 then Some(Pack(closed + Values(groups))) else None
    decreases |groups|
  {
    hide Value, Scan, Pack;
    var t := Join(groups, COLON);
    ValuesCons(groups);
    if |groups| == 1 {
      assert t + [] == t;
      ScanFirstGroup(groups[0], [], closed, zeros);
      var nothing: seq<Byte> := [];
      ScanElsewhere(nothing, 0, closed, Value(groups[0]), zeros, false);
      assert nothing[0..] == nothing;
      assert Values(groups) == [Value(groups[0])];
    } else {
      var tail := Join(groups[1..], COLON);
      var rest := [COLON] + tail;
      assert t == groups[0] + rest;
      ScanFirstGroup(groups[0], rest, closed, zeros);
      JoinStart(groups[1..]);
      ScanAtColon(rest, 0, closed, Value(groups[0]), zeros, false);
      assert rest[0..] == rest && rest[1..] == tail;
      var blocks := closed + [Value(groups[0])];
      if |blocks| <= 7 {
        ScanToEnd(groups[1..], blocks, zeros);
        assert blocks + Values(groups[1..]) == closed + Values(groups);
      }
    }
  }

  /** Groups up to a "::" that the rest of the text does not extend to a third colon. */
  lemma {:induction false} ScanToGap(groups: seq<seq<Byte>>, after: seq<Byte>, closed: seq<Word>, zeros: Word)
    requires AllGroups(groups) && |closed| <= 7
    requires forall k :: 0 < k < |groups| ==> groups[k] != []
    requires after == [] || after[0] != COLON
    ensures var n := |closed| + |groups| + zeros;
            Scan(Join(groups, COLON) + [COLON, COLON] + after, closed, 0, zeros, false) ==
            if n > 7 then None
            else Scan(after, closed + Values(groups) + NoBlocks(zeros), 0, 0, false)
    decreases |groups|
  {
    hide Value, Scan, Pack, NoBlocks;
    var first := groups[0];
    var blocks := closed + [Value(first)];
    var t := Join(groups, COLON) + [COLON, COLON] + after;
    ValuesCons(groups);
    if |groups| == 1 {
      var rest := [COLON, COLON] + after;
      assert t == first + rest;
      ScanFirstGroup(first, rest, closed, zeros);
      ScanAtColon(rest, 0, closed, Value(first), zeros, false);
      assert rest[0..] == rest && rest[2..] == after;
      assert blocks == closed + Values(groups);
    } else {
      var tail := Join(groups[1..], COLON) + [COLON, COLON] + after;
      var rest := [COLON] + tail;
      assert t == first + rest;
      ScanFirstGroup(first, rest, closed, zeros);
      assert Join(groups[1..], COLON) != [] by { JoinStart(groups[1..]); }
      JoinStart(groups[1..]);
      assert tail[0] == Join(groups[1..], COLON)[0];
      ScanAtColon(rest, 0, closed, Value(first), zeros, false);
      assert rest[0..] == rest && rest[1..] == tail;
      if |blocks| <= 7 {
        ScanToGap(groups[1..], after, blocks, zeros);
        assert blocks + Values(groups[1..]) == closed + Values(groups);
      }
    }
  }

  // ---------- the colon count ----------

  function Colons(t: seq<Byte>): nat {
    if t == [] then 0 else (if t[0] == COLON then 1 else 0) + Colons(t[1..])
  }

  /** The colons the counting scan sees: those before the first letter. */
  function ColonsBeforeLetter(t: seq<Byte>): nat {
    if t == [] then 0
    else if t[0] == COLON then 1 + ColonsBeforeLetter(t[1..])
    else if IsDigit(t[0]) then ColonsBeforeLetter(t[1..])
    else 0
  }

  predicate LetterBeforeColon(t: seq<Byte>) {
    exists i, j :: 0 <= i < j < |t| && IsHexaDigit(t[i]) && !IsDigit(t[i]) && t[j] == COLON
  }

  predicate HexaOrColon(t: seq<Byte>) {
    forall k :: 0 <= k < |t| ==> IsHexaDigit(t[k]) || t[k] == COLON
  }

  lemma {:induction false} CountIsColonsBeforeLetter(t: seq<Byte>, zeros: Word)
    requires HexaOrColon(t)
    ensures CountColons(t, zeros) == Counted(Wrap(zeros - ColonsBeforeLetter(t)), false)
  {
    assert Wrap(zeros) == zeros;
    hide Wrap;
    if t != [] {
      assert HexaOrColon(t[1..]);
      if t[0] == COLON {
        WrapMinus(zeros - 1, ColonsBeforeLetter(t[1..]));
        CountIsColonsBeforeLetter(t[1..], Wrap(zeros - 1));
      } else if IsDigit(t[0]) {
        CountIsColonsBeforeLetter(t[1..], zeros);
      }
    }
  }

  lemma {:induction false} NoColons(t: seq<Byte>)
    ensures Colons(t) == 0 <==> forall k :: 0 <= k < |t| ==> t[k] != COLON
  {
    if t != [] {
      NoColons(t[1..]);
      assert forall k :: 1 <= k < |t| ==> t[k] == t[1..][k - 1];
    }
  }

  lemma {:induction false} CountMissesColons(t: seq<Byte>)
    requires HexaOrColon(t)
    ensures ColonsBeforeLetter(t) <= Colons(t)
    ensures ColonsBeforeLetter(t) == Colons(t) <==> !LetterBeforeColon(t)
  {
    if t != [] {
      var rest := t[1..];
      assert HexaOrColon(rest);
      CountMissesColons(rest);
      NoColons(rest);
      if t[0] == COLON || IsDigit(t[0]) {
        if LetterBeforeColon(t) {
          var i, j :| 0 <= i < j < |t| && IsHexaDigit(t[i]) && !IsDigit(t[i]) && t[j] == COLON;
          assert rest[i - 1] == t[i] && rest[j - 1] == COLON;
        }
        if LetterBeforeColon(rest) {
          var i, j :| 0 <= i < j < |rest| && IsHexaDigit(rest[i]) && !IsDigit(rest[i]) && rest[j] == COLON;
          assert t[i + 1] == rest[i] && t[j + 1] == COLON;
        }
      } else if Colons(rest) > 0 {
        var j :| 0 <= j < |rest| && rest[j] == COLON;
        assert t[0] != COLON && t[j + 1] == COLON;
      }
    }
  }

  lemma {:induction false} ColonsConcat(a: seq<Byte>, b: seq<Byte>)
    ensures Colons(a + b) == Colons(a) + Colons(b)
  {
    if a == [] {
      assert a + b == b;
    } else {
      assert (a + b)[1..] == a[1..] + b;
      ColonsConcat(a[1..], b);
    }
  }

  lemma {:induction false} ColonsOfJoin(groups: seq<seq<Byte>>)
    requires AllGroups(groups)
    ensures Colons(Join(groups, COLON)) == |groups| - 1 && HexaOrColon(Join(groups, COLON))
  {
    NoColons(groups[0]);
    if |groups| > 1 {
      var tail := Join(groups[1..], COLON);
      ColonsOfJoin(groups[1..]);
      ColonsConcat(groups[0] + [COLON], tail);
      ColonsConcat(groups[0], [COLON]);
    }
  }

  // ---------- what every text means ----------

  lemma {:induction false} TextAfterGap(parts: seq<Part>)
    requires Wellformed(parts, false)
    ensures var t := TextOf(parts, false); t == [] || t[0] != COLON
  {
    JoinStart(parts[0]);
    if |parts| > 1 {
      assert parts[0][0] != [];
    }
  }

  lemma {:induction false} ColonsOfText(parts: seq<Part>, first: bool)
    requires Wellformed(parts, first)
    ensures var t := TextOf(parts, first);
            HexaOrColon(t) && Colons(t) == |AllValues(parts, first)| + |parts| - 2
  {
    hide Join, Values, Wrap;
    ColonsOfJoin(parts[0]);
    if |parts| > 1 {
      ColonsOfText(parts[1..], false);
      assert [COLON] + [COLON] == [COLON, COLON] && Colons([COLON]) == 1;
      ColonsConcat([COLON], [COLON]);
      ColonsConcat(Join(parts[0], COLON), [COLON, COLON]);
      ColonsConcat(Join(parts[0], COLON) + [COLON, COLON], TextOf(parts[1..], false));
    }
  }

  /** After the first "::" the zeros are used up: a further one only separates. */
  lemma {:induction false} ScanAfterGap(parts: seq<Part>, closed: seq<Word>)
    requires Wellformed(parts, false) && |closed| <= 7
    ensures var blocks := closed + AllValues(parts, false);
            Scan(TextOf(parts, false), closed, 0, 0, false) == if |blocks| == 8 then Some(Pack(blocks)) else None
    decreases |parts|
  {
    hide Scan, Pack, Value, Join, Values;
    if |parts| == 1 {
      ScanToEnd(parts[0], closed, 0);
    } else {
      TextAfterGap(parts[1..]);
      ScanToGap(parts[0], TextOf(parts[1..], false), closed, 0);
      var blocks := closed + Values(parts[0]);
      assert blocks + NoBlocks(0) == blocks;
      if |blocks| <= 7 {
        ScanAfterGap(parts[1..], blocks);
        assert blocks + AllValues(parts[1..], false) == closed + AllValues(parts, false);
      }
    }
  }

  lemma ScanText(parts: seq<Part>, zeros: Word)
    requires Wellformed(parts, true)
    ensures var n := |AllValues(parts, true)|;
            Scan(TextOf(parts, true), [], 0, zeros, false) ==
            if |parts| == 1 then (if n == 8 then Some(Pack(AllValues(parts, true))) else None)
            else if n + zeros == 8
            then Some(Pack(Values(parts[0]) + NoBlocks(zeros) + AllValues(parts[1..], false))) else None
  {
    hide Scan, Pack, Value, Join, Values;
    assert [] + Values(parts[0]) == Values(parts[0]);
    if |parts| == 1 {
      ScanToEnd(parts[0], [], zeros);
    } else {
      TextAfterGap(parts[1..]);
      ScanToGap(parts[0], TextOf(parts[1..], false), [], zeros);
      if |parts[0]| + zeros <= 7 {
        ScanAfterGap(parts[1..], Values(parts[0]) + NoBlocks(zeros));
      }
    }
  }

  /** The words eight blocks make in an address. */
  function ToNetwork(blocks: seq<Word>): seq<Word> {
    SwapAll(Pack(blocks))
  }

  /**
   * Without "::" a text is accepted exactly when it has eight groups. With one or more, exactly when the colons
   * before its first letter are as many as its groups: the zeros all go to the first "::".
   */
  lemma MeaningOfText(parts: seq<Part>)
    requires Wellformed(parts, true)
    ensures var t, n := TextOf(parts, true), |AllValues(parts, true)|;
            Meaning(t) ==
            if |parts| == 1 then (if n == 8 then Some(ToNetwork(AllValues(parts, true))) else None)
            else if n <= 8 && ColonsBeforeLetter(t) == n
            then Some(ToNetwork(Values(parts[0]) + NoBlocks(8 - n) + AllValues(parts[1..], false))) else None
  {
    hide Scan, Pack, SwapAll, Values, CountColons, TextOf, AllValues, ColonsBeforeLetter;
    var t := TextOf(parts, true);
    ColonsOfText(parts, true);
    CountIsColonsBeforeLetter(t, 8);
    CountMissesColons(t);
    ScanText(parts, Wrap(8 - ColonsBeforeLetter(t)));
  }

  /** A text with a single "::". */
  function GapText(left: Part, right: Part): (t: seq<Byte>)
    requires PartOk(left, true, false) && PartOk(right, false, true)
    ensures Wellformed([left, right], true) && t == TextOf([left, right], true)
  {
    assert [left, right][1..] == [right];
    Join(left, COLON) + [COLON, COLON] + Join(right, COLON)
  }

  /** With a single "::" and room for it: accepted exactly when no letter stands before the last colon. */
  lemma MeaningWithOneGap(left: Part, right: Part)
    requires PartOk(left, true, false) && PartOk(right, false, true) && |left| + |right| <= 8
    ensures var t := GapText(left, right);
            Meaning(t) == if LetterBeforeColon(t) then None
                          else Some(ToNetwork(Values(left) + NoBlocks(8 - |left| - |right|) + Values(right)))
  {
    var t, parts := GapText(left, right), [left, right];
    hide Meaning, ToNetwork, TextOf;
    assert parts[1..] == [right];
    MeaningOfText(parts);
    ColonsOfText(parts, true);
    CountMissesColons(t);
  }
}
