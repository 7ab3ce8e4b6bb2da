/** What follows the colon-hexadecimal part: characters that end the scan, and an embedded dotted address. */
module Ipv6Tails {
  import opened Words
  import opened Text
  import opened Ipv6Parser
  import opened Ipv6Spelling
  import V4 = Ipv4Parser

  predicate HasLetter(t: seq<Byte>) {
    exists i :: 0 <= i < |t| && IsHexaDigit(t[i]) && !IsDigit(t[i])
  }

  /** A character that ends the scan; a dot ends it only where the counting scan has already met a letter. */
  predicate EndsText(t: seq<Byte>, tail: seq<Byte>) {
    tail != [] && !IsHexaDigit(tail[0]) && tail[0] != COLON && (tail[0] == DOT ==> HasLetter(t))
  }

  lemma {:induction false} CountIgnoresTail(t: seq<Byte>, tail: seq<Byte>, zeros: Word)
    requires HexaOrColon(t) && EndsText(t, tail)
    ensures CountColons(t + tail, zeros) == CountColons(t, zeros)
  {
    if t == [] {
      assert t + tail == tail;
    } else {
      var rest := t[1..];
      assert (t + tail)[0] == t[0] && (t + tail)[1..] == rest + tail;
      assert HexaOrColon(rest);
      if t[0] == COLON || IsDigit(t[0]) {
        if HasLetter(t) {
          var i :| 0 <= i < |t| && IsHexaDigit(t[i]) && !IsDigit(t[i]);
          assert rest[i - 1] == t[i];
        }
        hide Wrap;
        CountIgnoresTail(rest, tail, if t[0] == COLON then Wrap(zeros - 1) else zeros);
      }
    }
  }

  lemma {:induction false} ScanIgnoresTail(t: seq<Byte>, tail: seq<Byte>, closed: seq<Word>, value: Word, zeros: Word)
    requires HexaOrColon(t) && |closed| <= 7
    requires tail != [] && !IsHexaDigit(tail[0]) && tail[0] != COLON
    ensures Scan(t + tail, closed, value, zeros, false) == Scan(t, closed, value, zeros, false)
    decreases |t|
  {
    hide Scan, Wrap, Pack, NoBlocks;
    var s := t + tail;
    assert s[0..] == s && t[0..] == t;
    if t == [] {
      assert s == tail;
      ScanElsewhere(s, 0, closed, value, zeros, false);
      ScanElsewhere(t, 0, closed, value, zeros, false);
    } else if t[0] == COLON {
      ScanAtColon(s, 0, closed, value, zeros, false);
      ScanAtColon(t, 0, closed, value, zeros, false);
      assert s[1..] == t[1..] + tail;
      var blocks := closed + [value];
      if ColonAt(t, 1) {
        assert s[2..] == t[2..] + tail;
        if |blocks| + zeros <= 7 {
          ScanIgnoresTail(t[2..], tail, blocks + NoBlocks(zeros), 0, 0);
        }
      } else if |blocks| <= 7 {
        ScanIgnoresTail(t[1..], tail, blocks, 0, zeros);
      }
    } else {
      ScanElsewhere(s, 0, closed, value, zeros, false);
      ScanElsewhere(t, 0, closed, value, zeros, false);
      assert s[1..] == t[1..] + tail;
      ScanIgnoresTail(t[1..], tail, closed, Wrap(value * 16 + DigitValue(t[0])), zeros);
    }
  }

  /** The first other character ends the text, whatever comes after it. */
  lemma TailIsIgnored(t: seq<Byte>, tail: seq<Byte>)
    requires HexaOrColon(t) && EndsText(t, tail)
    ensures Meaning(t + tail) == Meaning(t)
  {
    hide Scan, CountColons, SwapAll;
    CountIgnoresTail(t, tail, 8);
    CountIsColonsBeforeLetter(t, 8);
    ScanIgnoresTail(t, tail, [], 0, Wrap(8 - ColonsBeforeLetter(t)));
  }

  /** So a "::" text with a letter before its last colon is turned down with a dotted address at its end too:
      the usual ::ffff:a.b.c.d is not accepted. */
  lemma MappedWithLetterIsRejected(left: Part, right: Part, dotted: seq<Byte>)
    requires PartOk(left, true, false) && PartOk(right, false, true) && |left| + |right| <= 8
    requires LetterBeforeColon(GapText(left, right)) && dotted != [] && dotted[0] == DOT
    ensures Meaning(GapText(left, right) + dotted) == None
  {
    hide Meaning;
    var t := GapText(left, right);
    ColonsOfText([left, right], true);
    TailIsIgnored(t, dotted);
    MeaningWithOneGap(left, right);
  }

  // ---------- a dotted address at the end ----------

  predicate AllDigits(g: seq<Byte>) {
    forall k :: 0 <= k < |g| ==> IsDigit(g[k])
  }

  lemma {:induction false} CountOverDigits(g: seq<Byte>, rest: seq<Byte>, zeros: Word)
    requires AllDigits(g)
    ensures CountColons(g + rest, zeros) == CountColons(rest, zeros)
  {
    if g == [] {
      assert g + rest == rest;
    } else {
      assert (g + rest)[1..] == g[1..] + rest;
      CountOverDigits(g[1..], rest, zeros);
    }
  }

  /** Groups, each followed by a colon. */
  function Prefix(groups: Part): seq<Byte> {
    if groups == [] then [] else groups[0] + [COLON] + Prefix(groups[1..])
  }

  predicate DigitGroups(groups: Part) {
    forall k :: 0 <= k < |groups| ==> AllDigits(groups[k])
  }

  /** Only the first group may be empty. */
  predicate Filled(groups: Part) {
    forall k :: 0 < k < |groups| ==> groups[k] != []
  }

  lemma {:induction false} CountOverPrefix(groups: Part, rest: seq<Byte>, zeros: int)
    requires DigitGroups(groups)
    ensures CountColons(Prefix(groups) + rest, Wrap(zeros)) == CountColons(rest, Wrap(zeros - |groups|))
  {
    if groups == [] {
      assert Prefix(groups) + rest == rest;
    } else {
      var more := Prefix(groups[1..]) + rest;
      assert Prefix(groups) + rest == groups[0] + ([COLON] + more);
      CountOverDigits(groups[0], [COLON] + more, Wrap(zeros));
      assert ([COLON] + more)[1..] == more;
      WrapMinus(zeros, 1);
      CountOverPrefix(groups[1..], rest, zeros - 1);
    }
  }

  lemma ScanOneDigit(done: seq<Byte>, c: Byte, rest: seq<Byte>, closed: seq<Word>, zeros: Word)
    requires AllHexa(done) && IsDigit(c) && |closed| <= 7
    ensures AllHexa(done + [c])
    ensures Scan([c] + rest, closed, Value(done), zeros, true) == Scan(rest, closed, Value(done + [c]), zeros, true)
  {
    hide Scan, Wrap, Eval;
    var s := [c] + rest;
    V4.EvalAppend(done, c, 16);
    WrapMulAdd(Eval(done, 16), 16, DigitValue(c));
    assert s[0] == c && s[1..] == rest && s[0..] == s;
    ScanElsewhere(s, 0, closed, Value(done), zeros, true);
  }

  lemma {:induction false} ScanDigits(done: seq<Byte>, g: seq<Byte>, rest: seq<Byte>, closed: seq<Word>, zeros: Word)
    requires AllHexa(done) && AllDigits(g) && |closed| <= 7
    ensures AllHexa(done + g)
    ensures Scan(g + rest, closed, Value(done), zeros, true) == Scan(rest, closed, Value(done + g), zeros, true)
    decreases |g|
  {
    hide Scan, Value;
    if g == [] {
      assert g + rest == rest && done + g == done;
    } else {
      ScanOneDigit(done, g[0], g[1..] + rest, closed, zeros);
      ScanDigits(done + [g[0]], g[1..], rest, closed, zeros);
      assert [g[0]] + (g[1..] + rest) == g + rest && done + [g[0]] + g[1..] == done + g;
    }
  }

  lemma EmptyValue()
    ensures Value([]) == 0
  {
  }

  lemma ScanGroupDigits(g: seq<Byte>, rest: seq<Byte>, closed: seq<Word>, zeros: Word)
    requires AllDigits(g) && |closed| <= 7
    ensures AllHexa(g) && Scan(g + rest, closed, 0, zeros, true) == Scan(rest, closed, Value(g), zeros, true)
  {
    hide Scan, Value;
    EmptyValue();
    ScanDigits([], g, rest, closed, zeros);
    assert [] + g == g;
  }

  lemma {:induction false} ReadUpToColon(g: seq<Byte>, x: seq<Byte>, base: nat, val: Word)
    requires AllDigits(g) && (base == 8 || base == 10)
    ensures V4.ReadDigits(g + [COLON] + x, base, val).rest == [COLON] + x
    decreases |g|
  {
    var s := g + [COLON] + x;
    if g == [] {
      assert s == [COLON] + x;
    } else {
      assert s[0] == g[0] && s[1..] == g[1..] + [COLON] + x;
      hide Wrap;
      ReadUpToColon(g[1..], x, base, Wrap(val * base + DigitValue(g[0])));
    }
  }

  /** What has a colon after its first digits is no dotted address. */
  lemma ColonIsNotDotted(g: seq<Byte>, x: seq<Byte>)
    requires AllDigits(g)
    ensures V4.Meaning(g + [COLON] + x) == None
  {
    hide V4.ReadDigits, V4.Combine;
    var s := g + [COLON] + x;
    if g != [] {
      assert s[0] == g[0];
      if g[0] == ZERO {
        assert s[1..] == g[1..] + [COLON] + x;
        assert |g| > 1 ==> s[1] == g[1];
        ReadUpToColon(g[1..], x, 8, 0);
      } else {
        ReadUpToColon(g, x, 10, 0);
      }
      assert V4.ReadNumber(s).rest == [COLON] + x;
    } else {
      assert s[0] == COLON;
    }
  }

  /** The digits before the dot, the dot and the rest. */
  function DottedTail(first: seq<Byte>, others: seq<Byte>): seq<Byte> {
    first + [DOT] + others
  }

  lemma ScanNoGroups(first: seq<Byte>, others: seq<Byte>, closed: seq<Word>, zeros: Word)
    requires AllDigits(first) && |closed| < 7
    ensures Scan(DottedTail(first, others), closed, 0, zeros, true) == None
  {
    hide Scan, Value;
    var rest := [DOT] + others;
    assert DottedTail(first, others) == first + rest;
    ScanGroupDigits(first, rest, closed, zeros);
    assert rest[0..] == rest;
    ScanElsewhere(rest, 0, closed, Value(first), zeros, true);
  }

  lemma DottedStart(first: seq<Byte>, others: seq<Byte>)
    requires AllDigits(first)
    ensures DottedTail(first, others) != [] && DottedTail(first, others)[0] != COLON
  {
    assert DottedTail(first, others)[0] == if first == [] then DOT else first[0];
  }

  lemma PrefixStart(groups: Part, rest: seq<Byte>)
    requires DigitGroups(groups) && Filled(groups) && |groups| > 1
    ensures var more := Prefix(groups[1..]) + rest; more != [] && more[0] != COLON && V4.Meaning(more) == None
  {
    hide V4.Meaning;
    var more := Prefix(groups[1..]) + rest;
    var x := Prefix(groups[1..][1..]) + rest;
    assert more == groups[1] + [COLON] + x;
    assert more[0] == groups[1][0];
    ColonIsNotDotted(groups[1], x);
  }

  lemma TailStart(groups: Part, first: seq<Byte>, others: seq<Byte>)
    requires DigitGroups(groups) && Filled(groups) && groups != [] && AllDigits(first)
    ensures var more := Prefix(groups[1..]) + DottedTail(first, others);
            more != [] && more[0] != COLON
            && (if |groups| == 1 then more == DottedTail(first, others) else V4.Meaning(more) == None)
  {
    hide V4.Meaning, DottedTail;
    if |groups| == 1 {
      DottedStart(first, others);
      assert Prefix(groups[1..]) + DottedTail(first, others) == DottedTail(first, others);
    } else {
      PrefixStart(groups, DottedTail(first, others));
    }
  }

  lemma ScanGroupAndOn(group: seq<Byte>, more: seq<Byte>, closed: seq<Word>, zeros: Word)
    requires AllDigits(group) && |closed| <= 7 && more != [] && more[0] != COLON
    ensures AllHexa(group)
    ensures var blocks := closed + [Value(group)];
            Scan(group + ([COLON] + more), closed, 0, zeros, true) ==
            if |blocks| == 6 && V4.Meaning(more).Some? then Some(Pack(blocks) + [SwapBytes(V4.Meaning(more).value)])
            else if |blocks| > 7 then None else Scan(more, blocks, 0, zeros, true)
  {
    hide Scan, Value, Pack, SwapBytes, V4.Meaning, NoBlocks;
    var rest := [COLON] + more;
    ScanGroupDigits(group, rest, closed, zeros);
    ScanAtColon(rest, 0, closed, Value(group), zeros, true);
    assert rest[0..] == rest && rest[1..] == more;
  }

  lemma PrefixStep(groups: Part)
    requires groups != []
    ensures Prefix(groups) == groups[0] + [COLON] + Prefix(groups[1..])
    ensures |groups| == 1 ==> Prefix(groups[1..]) == []
  {
  }

  lemma PrefixCons(groups: Part, tail: seq<Byte>)
    requires groups != []
    ensures Prefix(groups) + tail == groups[0] + ([COLON] + (Prefix(groups[1..]) + tail))
    ensures |groups| == 1 ==> Prefix(groups[1..]) + tail == tail
  {
    hide Prefix;
    PrefixStep(groups);
    var more := Prefix(groups[1..]);
    Associate(groups[0] + [COLON], more, tail);
    Associate(groups[0], [COLON], more + tail);
  }

  lemma Associate(a: seq<Byte>, b: seq<Byte>, c: seq<Byte>)
    ensures (a + b) + c == a + (b + c) && [] + c == c
  {
  }

  lemma ValuesJoin(closed: seq<Word>, groups: Part)
    requires AllGroups(groups)
    ensures var blocks := closed + [Value(groups[0])];
            && blocks + Values(groups[1..]) == closed + Values(groups)
            && (|groups| == 1 ==> blocks == closed + Values(groups))
  {
    hide Value;
  }

  /** Groups up to a dotted tail, of which the whole does not come to seven: the tail is taken after six. */
  lemma {:induction false} ScanOverPrefix(groups: Part, first: seq<Byte>, others: seq<Byte>, closed: seq<Word>, zeros: Word)
    requires DigitGroups(groups) && Filled(groups) && AllDigits(first)
    requires |closed| <= 7 && |closed| + |groups| != 7
    ensures var v4 := DottedTail(first, others);
            Scan(Prefix(groups) + v4, closed, 0, zeros, true) ==
            if groups != [] && |closed| + |groups| == 6 && V4.Meaning(v4).Some?
            then Some(Pack(closed + Values(groups)) + [SwapBytes(V4.Meaning(v4).value)]) else None
    decreases |groups|
  {
    hide Scan, Value, Values, Pack, SwapBytes, V4.Meaning, DottedTail, Prefix;
    var v4 := DottedTail(first, others);
    if groups == [] {
      NoPrefix(v4);
      ScanNoGroups(first, others, closed, zeros);
    } else {
      PrefixCons(groups, v4);
      ValuesJoin(closed, groups);
      TailStart(groups, first, others);
      ScanGroupAndOn(groups[0], Prefix(groups[1..]) + v4, closed, zeros);
      var blocks := closed + [Value(groups[0])];
      if |blocks| <= 7 {
        ScanOverPrefix(groups[1..], first, others, blocks, zeros);
      }
    }
  }

  lemma NoPrefix(v4: seq<Byte>)
    ensures Prefix([]) + v4 == v4
  {
  }

  lemma ScanLastBeforeGap(group: seq<Byte>, after: seq<Byte>, closed: seq<Word>, zeros: Word)
    requires AllDigits(group) && |closed| <= 7 && after != [] && after[0] != COLON
    ensures AllHexa(group)
    ensures var blocks := closed + [Value(group)];
            Scan(group + ([COLON, COLON] + after), closed, 0, zeros, true) ==
            if |blocks| + zeros > 7 then None else Scan(after, blocks + NoBlocks(zeros), 0, 0, true)
  {
    hide Scan, Value, Pack, SwapBytes, V4.Meaning, NoBlocks;
    var rest := [COLON, COLON] + after;
    ScanGroupDigits(group, rest, closed, zeros);
    ScanAtColon(rest, 0, closed, Value(group), zeros, true);
    assert rest[0..] == rest && rest[1..] == [] + [COLON] + after && rest[2..] == after;
    ColonIsNotDotted([], after);
  }

  /** Groups up to a "::" in such a text. */
  lemma {:induction false} ScanToDottedGap(groups: Part, after: seq<Byte>, closed: seq<Word>, zeros: Word)
    requires DigitGroups(groups) && Filled(groups) && groups != [] && |closed| <= 7
    requires after != [] && after[0] != COLON
    ensures var n := |closed| + |groups| + zeros;
            Scan(Prefix(groups) + ([COLON] + after), closed, 0, zeros, true) ==
            if n > 7 then None else Scan(after, closed + Values(groups) + NoBlocks(zeros), 0, 0, true)
    decreases |groups|
  {
    hide Scan, Value, Values, V4.Meaning, NoBlocks, Prefix;
    var tail := [COLON] + after;
    PrefixCons(groups, tail);
    ValuesJoin(closed, groups);
    if |groups| == 1 {
      assert [COLON] + tail == [COLON, COLON] + after;
      ScanLastBeforeGap(groups[0], after, closed, zeros);
    } else {
      PrefixStart(groups, tail);
      ScanGroupAndOn(groups[0], Prefix(groups[1..]) + tail, closed, zeros);
      var blocks := closed + [Value(groups[0])];
      if |blocks| <= 7 {
        ScanToDottedGap(groups[1..], after, blocks, zeros);
      }
    }
  }

  lemma CountDotted(first: seq<Byte>, others: seq<Byte>, zeros: Word)
    requires AllDigits(first)
    ensures CountColons(DottedTail(first, others), zeros) ==
            if zeros == 5 || zeros == 2 then Counted(zeros - 1, true) else BadDot
  {
    CountOverDigits(first, [DOT] + others, zeros);
    assert DottedTail(first, others) == first + ([DOT] + others);
  }

  lemma SwapWithTail(blocks: seq<Word>, w: Word)
    ensures SwapAll(Pack(blocks) + [SwapBytes(w)]) == SwapAll(Pack(blocks)) + [w]
  {
    SwapBytesTwice(w);
    hide SwapBytes, Pack;
  }

  /** Groups of decimal digits and a dotted tail without "::": accepted exactly when there are six of them before a
      good address; the first three words come from the groups, the last is the dotted address itself. */
  lemma {:induction false} EmbeddedMeaning(groups: Part, first: seq<Byte>, others: seq<Byte>)
    requires DigitGroups(groups) && Filled(groups) && AllDigits(first)
    ensures var v4 := DottedTail(first, others);
            Meaning(Prefix(groups) + v4) ==
            if |groups| == 6 && V4.Meaning(v4).Some?
            then Some(ToNetwork(Values(groups)) + [V4.Meaning(v4).value]) else None
  {
    hide Scan, CountColons, Pack, SwapAll, SwapBytes, V4.Meaning, Values, DottedTail, Prefix;
    var v4, n := DottedTail(first, others), |groups|;
    CountOverPrefix(groups, v4, 8);
    assert Wrap(8) == 8;
    var zeros := Wrap(8 - n);
    CountDotted(first, others, zeros);
    if zeros == 5 || zeros == 2 {
      assert n != 7;
      ScanOverPrefix(groups, first, others, [], zeros - 1);
      assert [] + Values(groups) == Values(groups);
      if V4.Meaning(v4).Some? {
        SwapWithTail(Values(groups), V4.Meaning(v4).value);
      }
    }
  }

  /**
   * The same with one "::" among the groups: accepted exactly when there are two or five groups in all, not all of
   * them before the "::". So ::0:1.2.3.4 is accepted and ::1.2.3.4 is not.
   */
  lemma {:induction false} EmbeddedWithGap(left: Part, right: Part, first: seq<Byte>, others: seq<Byte>)
    requires DigitGroups(left) && Filled(left) && left != [] && AllDigits(first)
    requires DigitGroups(right) && Filled(right) && (right != [] ==> right[0] != [])
    ensures var v4, n := DottedTail(first, others), |left| + |right|;
            Meaning(Prefix(left) + ([COLON] + (Prefix(right) + v4))) ==
            if (n == 2 || n == 5) && right != [] && V4.Meaning(v4).Some?
            then Some(ToNetwork(Values(left) + NoBlocks(6 - n) + Values(right)) + [V4.Meaning(v4).value]) else None
  {
    hide Scan, Pack, SwapAll, SwapBytes, V4.Meaning, Values, DottedTail, NoBlocks;
    var v4, n := DottedTail(first, others), |left| + |right|;
    var after := Prefix(right) + v4;
    var zeros := Wrap(7 - n);
    CountGap(left, right, v4);
    CountDotted(first, others, zeros);
    AfterStart(right, first, others);
    hide CountColons, Prefix;
    if zeros == 5 || zeros == 2 {
      ScanToDottedGap(left, after, [], zeros - 1);
      assert [] + Values(left) == Values(left);
      if |left| + (zeros - 1) <= 7 {
        var closed := Values(left) + NoBlocks(zeros - 1);
        ScanOverPrefix(right, first, others, closed, 0);
        if right != [] && n <= 7 && V4.Meaning(v4).Some? {
          SwapWithTail(closed + Values(right), V4.Meaning(v4).value);
        }
      }
    }
  }

  lemma CountColon(rest: seq<Byte>, zeros: Word)
    ensures CountColons([COLON] + rest, zeros) == CountColons(rest, Wrap(zeros - 1))
  {
    assert ([COLON] + rest)[1..] == rest;
  }

  lemma CountGap(left: Part, right: Part, v4: seq<Byte>)
    requires DigitGroups(left) && DigitGroups(right)
    ensures CountColons(Prefix(left) + ([COLON] + (Prefix(right) + v4)), 8) ==
            CountColons(v4, Wrap(7 - |left| - |right|))
  {
    hide Prefix, CountColons, Wrap;
    WrapSmall(8);
    CountOverPrefix(left, [COLON] + (Prefix(right) + v4), 8);
    CountColon(Prefix(right) + v4, Wrap(8 - |left|));
    WrapMinus(8 - |left|, 1);
    CountOverPrefix(right, v4, 7 - |left|);
  }

  lemma AfterStart(right: Part, first: seq<Byte>, others: seq<Byte>)
    requires DigitGroups(right) && (right != [] ==> right[0] != []) && AllDigits(first)
    ensures var after := Prefix(right) + DottedTail(first, others); after != [] && after[0] != COLON
  {
    hide DottedTail;
    DottedStart(first, others);
    var after := Prefix(right) + DottedTail(first, others);
    if right == [] {
      assert after == DottedTail(first, others);
    } else {
      assert after[0] == right[0][0];
    }
  }

  // ---------- several "::" before a dotted address ----------

  /** Parts before a dotted tail: the first group may be empty, the last part may have no groups. */
  predicate GapParts(parts: seq<Part>) {
    && |parts| > 1 && Filled(parts[0])
    && (forall k :: 0 <= k < |parts| ==> DigitGroups(parts[k]))
    && (forall k :: 0 <= k < |parts| - 1 ==> parts[k] != [])
    && (forall k, g :: 0 < k < |parts| && 0 <= g < |parts[k]| ==> parts[k][g] != [])
  }

  /** Each group with a colon after it, and one more colon between the parts. */
  function GapPrefix(parts: seq<Part>): seq<Byte>
    requires parts != []
  {
    if |parts| == 1 then Prefix(parts[0]) else Prefix(parts[0]) + ([COLON] + GapPrefix(parts[1..]))
  }

  function GroupCount(parts: seq<Part>): nat {
    if parts == [] then 0 else |parts[0]| + GroupCount(parts[1..])
  }

  /** A later part of such a text: no group of it is empty. */
  predicate LaterParts(parts: seq<Part>) {
    && parts != []
    && (forall k :: 0 <= k < |parts| ==> DigitGroups(parts[k]))
    && (forall k :: 0 <= k < |parts| - 1 ==> parts[k] != [])
    && (forall k, g :: 0 <= k < |parts| && 0 <= g < |parts[k]| ==> parts[k][g] != [])
  }

  lemma LaterStep(parts: seq<Part>)
    requires LaterParts(parts) && |parts| > 1
    ensures LaterParts(parts[1..]) && DigitGroups(parts[0]) && Filled(parts[0]) && parts[0] != []
  {
    hide DigitGroups;
  }

  lemma {:induction false} CountOverGaps(parts: seq<Part>, v4: seq<Byte>, zeros: int)
    requires parts != [] && forall k :: 0 <= k < |parts| ==> DigitGroups(parts[k])
    ensures CountColons(GapPrefix(parts) + v4, Wrap(zeros)) ==
            CountColons(v4, Wrap(zeros - GroupCount(parts) - (|parts| - 1)))
    decreases |parts|
  {
    hide CountColons, Wrap, Prefix, DigitGroups;
    if |parts| == 1 {
      CountOverPrefix(parts[0], v4, zeros);
    } else {
      var more := GapPrefix(parts[1..]);
      Associate(Prefix(parts[0]), [COLON] + more, v4);
      Associate([COLON], more, v4);
      CountOverPrefix(parts[0], [COLON] + (more + v4), zeros);
      CountColon(more + v4, Wrap(zeros - |parts[0]|));
      WrapMinus(zeros - |parts[0]|, 1);
      CountOverGaps(parts[1..], v4, zeros - |parts[0]| - 1);
    }
  }

  lemma LaterStart(parts: seq<Part>, first: seq<Byte>, others: seq<Byte>)
    requires LaterParts(parts) && AllDigits(first)
    ensures var after := GapPrefix(parts) + DottedTail(first, others); after != [] && after[0] != COLON
  {
    hide DottedTail;
    DottedStart(first, others);
    var after := GapPrefix(parts) + DottedTail(first, others);
    if parts[0] == [] {
      assert after == DottedTail(first, others);
    } else {
      assert after[0] == parts[0][0][0];
    }
  }

  /** Once the zeros are used up, nothing but six blocks before the tail is accepted. */
  lemma {:induction false} ScanLater(parts: seq<Part>, first: seq<Byte>, others: seq<Byte>, closed: seq<Word>)
    requires LaterParts(parts) && AllDigits(first) && |closed| <= 7
    requires |closed| + GroupCount(parts) != 6 && |closed| + GroupCount(parts) != 7
    ensures Scan(GapPrefix(parts) + DottedTail(first, others), closed, 0, 0, true) == None
    decreases |parts|
  {
    hide Scan, Value, Values, V4.Meaning, NoBlocks, Prefix, DottedTail, LaterParts, Filled;
    var v4 := DottedTail(first, others);
    if |parts| <= 1 {
      OnlyPart(parts);
      ScanOverPrefix(parts[0], first, others, closed, 0);
    } else {
      LaterStep(parts);
      var more := GapPrefix(parts[1..]);
      Associate(Prefix(parts[0]), [COLON] + more, v4);
      Associate([COLON], more, v4);
      LaterStart(parts[1..], first, others);
      ScanToDottedGap(parts[0], more + v4, closed, 0);
      if |closed| + |parts[0]| <= 7 {
        NoZeros(closed + Values(parts[0]));
        ScanLater(parts[1..], first, others, closed + Values(parts[0]));
      }
    }
  }

  lemma OnlyPart(parts: seq<Part>)
    requires LaterParts(parts) && |parts| <= 1
    ensures |parts| == 1 && DigitGroups(parts[0]) && Filled(parts[0]) && GroupCount(parts) == |parts[0]|
  {
    hide DigitGroups;
  }

  lemma {:induction false} EnoughGroups(parts: seq<Part>)
    requires parts != [] && forall k :: 0 <= k < |parts| - 1 ==> parts[k] != []
    ensures GroupCount(parts) >= |parts| - 1
    decreases |parts|
  {
    if |parts| > 1 {
      EnoughGroups(parts[1..]);
    }
  }

  lemma NoZeros(blocks: seq<Word>)
    ensures blocks + NoBlocks(0) == blocks
  {
  }

  lemma FirstOfGaps(parts: seq<Part>)
    requires GapParts(parts)
    ensures DigitGroups(parts[0]) && Filled(parts[0]) && parts[0] != [] && LaterParts(parts[1..])
    ensures GapPrefix(parts) == Prefix(parts[0]) + ([COLON] + GapPrefix(parts[1..]))
    ensures GroupCount(parts) == |parts[0]| + GroupCount(parts[1..])
  {
    hide DigitGroups, Prefix;
  }

  /** Digits with two or more "::" before a dotted tail are always rejected. */
  lemma {:induction false} ManyGapsAreRejected(parts: seq<Part>, first: seq<Byte>, others: seq<Byte>)
    requires GapParts(parts) && |parts| > 2 && AllDigits(first)
    ensures Meaning(GapPrefix(parts) + DottedTail(first, others)) == None
  {
    hide Scan, CountColons, Pack, SwapAll, V4.Meaning, Values, DottedTail, NoBlocks, Prefix, GapPrefix, GroupCount;
    var v4, n, k := DottedTail(first, others), GroupCount(parts), |parts| - 1;
    CountOverGaps(parts, v4, 8);
    WrapSmall(8);
    FirstOfGaps(parts);
    EnoughGroups(parts);
    var zeros := Wrap(8 - n - k);
    CountDotted(first, others, zeros);
    if zeros == 5 || zeros == 2 {
      var more := GapPrefix(parts[1..]);
      Associate(Prefix(parts[0]), [COLON] + more, v4);
      Associate([COLON], more, v4);
      LaterStart(parts[1..], first, others);
      ScanToDottedGap(parts[0], more + v4, [], zeros - 1);
      assert [] + Values(parts[0]) == Values(parts[0]);
      if |parts[0]| + (zeros - 1) <= 7 {
        ScanLater(parts[1..], first, others, Values(parts[0]) + NoBlocks(zeros - 1));
      }
    }
  }
}
