/** The shape of the printed text, and exactly when reading it back gives the address again. */
module Ipv6RoundTrip {
  import opened Words
  import opened Text
  import opened Ipv6Spelling
  import opened Ipv6Printer
  import Parser = Ipv6Parser

  // ---------- the shape, without reference to the loop ----------

  /** The first of two neighbouring zero blocks, from block b on; 8 if there is none. */
  function FirstRun(blocks: seq<Block>, b: nat): (k: nat)
    requires |blocks| == 9 && b <= 8
    ensures k == 8 || (b <= k <= 6 && blocks[k] == 0 && blocks[k + 1] == 0)
    ensures forall j :: b <= j < k && j <= 6 ==> !(blocks[j] == 0 && blocks[j + 1] == 0)
    decreases 8 - b
  {
    if b >= 7 then 8
    else if blocks[b] == 0 && blocks[b + 1] == 0 then b
    else FirstRun(blocks, b + 1)
  }

  /** Where the zero blocks from b on end. */
  function RunEnd(blocks: seq<Block>, b: nat): (m: nat)
    requires |blocks| == 9 && b <= 8
    ensures b <= m <= 8 && (m < 8 ==> blocks[m] != 0)
    ensures forall j :: b <= j < m ==> blocks[j] == 0
    decreases 8 - b
  {
    if b == 8 || blocks[b] != 0 then b else RunEnd(blocks, b + 1)
  }

  function Groups(blocks: seq<Block>, from: nat, to: nat): (part: Part)
    requires |blocks| == 9 && from <= to <= 8
    ensures |part| == to - from
    ensures forall k :: 0 <= k < |part| ==> part[k] == Hex(blocks[from + k])
  {
    seq(to - from, k requires 0 <= k < to - from => Hex(blocks[from + k]))
  }

  const EMPTY: Part := [[]]

  /** Block 7 printed without run: empty when it and the half-word beyond the array are both zero. */
  function LastGroup(blocks: seq<Block>): seq<Byte>
    requires |blocks| == 9
  {
    if blocks[7] == 0 && blocks[8] == 0 then [] else Hex(blocks[7])
  }

  function LeftPart(blocks: seq<Block>, k: nat): (part: Part)
    requires |blocks| == 9 && k <= 8
    ensures PartOk(part, true, false)
  {
    if k == 0 then EMPTY else Groups(blocks, 0, k)
  }

  function RightPart(blocks: seq<Block>, m: nat): (part: Part)
    requires |blocks| == 9 && m <= 8
    ensures PartOk(part, false, true)
  {
    if m == 8 then EMPTY else Groups(blocks, m, 8)
  }

  function WholePart(blocks: seq<Block>): (part: Part)
    requires |blocks| == 9
    ensures PartOk(part, true, true)
  {
    Groups(blocks, 0, 7) + [LastGroup(blocks)]
  }

  /** All eight groups, or the groups on either side of the first run of two or more zero blocks. */
  function Shape(blocks: seq<Block>): (t: seq<Byte>)
    requires |blocks| == 9
  {
    var k := FirstRun(blocks, 0);
    if k == 8 then Join(WholePart(blocks), COLON)
    else GapText(LeftPart(blocks, k), RightPart(blocks, RunEnd(blocks, k)))
  }

  // ---------- the loop produces the shape ----------

  lemma GroupsCons(blocks: seq<Block>, from: nat, to: nat)
    requires |blocks| == 9 && from < to <= 8
    ensures Groups(blocks, from, to) == [Hex(blocks[from])] + Groups(blocks, from + 1, to)
  {
  }

  lemma GroupsOne(blocks: seq<Block>, from: nat)
    requires |blocks| == 9 && from < 8
    ensures Join(Groups(blocks, from, from + 1), COLON) == Hex(blocks[from])
  {
  }

  lemma JoinGroups(blocks: seq<Block>, from: nat, to: nat)
    requires |blocks| == 9 && from + 1 < to <= 8
    ensures Join(Groups(blocks, from, to), COLON) ==
            Hex(blocks[from]) + [COLON] + Join(Groups(blocks, from + 1, to), COLON)
  {
    hide Join, Hex;
    GroupsCons(blocks, from, to);
    JoinCons(Hex(blocks[from]), Groups(blocks, from + 1, to), COLON);
  }

  lemma Associate(p: seq<Byte>, h: seq<Byte>, c: seq<Byte>, j: seq<Byte>, t: seq<Byte>)
    ensures (p + h) + (c + j + t) == p + (h + c + j) + t
    ensures (p + h) + t == p + h + t
  {
  }

  lemma {:induction false} FromAfterRun(blocks: seq<Block>, b: nat)
    requires |blocks| == 9 && 0 < b < 8
    ensures From(blocks, b, 2) == [COLON] + Join(Groups(blocks, b, 8), COLON)
    decreases 8 - b
  {
    hide Hex, From, Join, Groups;
    FromCases(blocks, b, 2);
    if b == 7 {
      LastIsEmpty(blocks, 2);
      GroupsOne(blocks, 7);
    } else {
      FromAfterRun(blocks, b + 1);
      JoinGroups(blocks, b, 8);
      Associate([COLON], Hex(blocks[b]), [COLON], Join(Groups(blocks, b + 1, 8), COLON), []);
    }
  }

  lemma {:induction false} FromInRun(blocks: seq<Block>, b: nat)
    requires |blocks| == 9 && 0 < b < 8
    ensures From(blocks, b, 1) == [COLON] + Join(RightPart(blocks, RunEnd(blocks, b)), COLON)
    decreases 8 - b
  {
    FromCases(blocks, b, 1);
    hide Hex, From, Groups;
    if blocks[b] == 0 {
      if b < 7 {
        FromInRun(blocks, b + 1);
      } else {
        assert RunEnd(blocks, 7) == 8 && Join(EMPTY, COLON) == [];
      }
    } else {
      hide Join;
      FromCases(blocks, b, 2);
      FromAfterRun(blocks, b);
    }
  }

  lemma FromLastBlock(blocks: seq<Block>)
    requires |blocks| == 9
    ensures From(blocks, 7, 0) == [COLON] + Join([LastGroup(blocks)], COLON)
  {
    hide Hex, From;
    FromCases(blocks, 7, 0);
    LastIsEmpty(blocks, 0);
    LastIsEmpty(blocks, 1);
  }

  lemma {:induction false} FromWithoutRun(blocks: seq<Block>, b: nat)
    requires |blocks| == 9 && b < 8 && FirstRun(blocks, b) == 8
    ensures From(blocks, b, 0) ==
            (if b > 0 then [COLON] else []) + Join(Groups(blocks, b, 7) + [LastGroup(blocks)], COLON)
    decreases 8 - b
  {
    hide Hex, From, Join, Groups, LastGroup;
    if b < 7 {
      FromCases(blocks, b, 0);
      FromWithoutRun(blocks, b + 1);
      GroupsCons(blocks, b, 7);
      var part := Groups(blocks, b + 1, 7) + [LastGroup(blocks)];
      assert Groups(blocks, b, 7) + [LastGroup(blocks)] == [Hex(blocks[b])] + part;
      JoinCons(Hex(blocks[b]), part, COLON);
      Associate(if b > 0 then [COLON] else [], Hex(blocks[b]), [COLON], Join(part, COLON), []);
    } else {
      FromLastBlock(blocks);
      assert Groups(blocks, 7, 7) + [LastGroup(blocks)] == [LastGroup(blocks)];
    }
  }

  lemma {:induction false} FromBeforeRun(blocks: seq<Block>, b: nat, k: nat)
    requires |blocks| == 9 && b <= k <= 6 && k == FirstRun(blocks, b)
    ensures var tail := [COLON, COLON] + Join(RightPart(blocks, RunEnd(blocks, k)), COLON);
            From(blocks, b, 0) ==
            if b == k then tail else (if b > 0 then [COLON] else []) + Join(Groups(blocks, b, k), COLON) + tail
    decreases 8 - b
  {
    FromCases(blocks, b, 0);
    var right := Join(RightPart(blocks, RunEnd(blocks, k)), COLON);
    var tail := [COLON, COLON] + right;
    if b == k {
      hide Hex, From, Join, Groups, RightPart;
      FromInRun(blocks, b + 1);
      assert [COLON] + ([COLON] + right) == tail;
    } else {
      hide Hex, From, Join, Groups, RightPart, RunEnd;
      FromBeforeRun(blocks, b + 1, k);
      var h, start := Hex(blocks[b]), if b > 0 then [COLON] else [];
      if b + 1 == k {
        GroupsOne(blocks, b);
      } else {
        JoinGroups(blocks, b, k);
      }
      Associate(start, h, [COLON], Join(Groups(blocks, if b + 1 == k then b else b + 1, k), COLON), tail);
    }
  }

  /** What the loop prints is the shape. */
  lemma PrintedShape(blocks: seq<Block>)
    requires |blocks| == 9
    ensures From(blocks, 0, 0) == Shape(blocks)
  {
    hide Hex, From, Groups, RightPart, RunEnd, FirstRun, Join;
    EmptyText();
    var k := FirstRun(blocks, 0);
    if k == 8 {
      FromWithoutRun(blocks, 0);
      assert [] + Shape(blocks) == Shape(blocks);
    } else {
      FromBeforeRun(blocks, 0, k);
    }
  }

  lemma EmptyText()
    ensures Join(EMPTY, COLON) == []
  {
  }

  // ---------- at most one "::" ----------

  predicate DoubleColonAt(t: seq<Byte>, i: int) {
    0 <= i < |t| - 1 && t[i] == COLON && t[i + 1] == COLON
  }

  ghost predicate NoDoubleColon(t: seq<Byte>) {
    forall i :: !DoubleColonAt(t, i)
  }

  lemma NoDoubleColonConcat(a: seq<Byte>, b: seq<Byte>)
    requires NoDoubleColon(a) && NoDoubleColon(b)
    requires a == [] || a[|a| - 1] != COLON || b == [] || b[0] != COLON
    ensures NoDoubleColon(a + b)
  {
    forall i ensures !DoubleColonAt(a + b, i) {
      assert !DoubleColonAt(a, i) && !DoubleColonAt(b, i - |a|);
    }
  }

  lemma {:induction false} JoinHasNoDoubleColon(groups: seq<seq<Byte>>)
    requires AllGroups(groups) && forall k :: 0 < k < |groups| - 1 ==> groups[k] != []
    ensures NoDoubleColon(Join(groups, COLON))
  {
    assert forall i :: !DoubleColonAt(groups[0], i);
    if |groups| > 1 {
      JoinHasNoDoubleColon(groups[1..]);
      JoinStart(groups[1..]);
      assert NoDoubleColon([COLON]);
      NoDoubleColonConcat(groups[0], [COLON]);
      NoDoubleColonConcat(groups[0] + [COLON], Join(groups[1..], COLON));
    }
  }

  lemma {:induction false} JoinEnd(groups: seq<seq<Byte>>)
    requires AllGroups(groups) && forall k :: 0 < k < |groups| ==> groups[k] != []
    ensures var t := Join(groups, COLON); t == [] || t[|t| - 1] != COLON
    ensures |groups| > 1 ==> Join(groups, COLON) != []
  {
    if |groups| > 1 {
      JoinEnd(groups[1..]);
    }
  }

  lemma PartsHaveNoDoubleColon(left: Part, right: Part)
    requires PartOk(left, true, false) && PartOk(right, false, true)
    ensures NoDoubleColon(Join(left, COLON)) && NoDoubleColon(Join(right, COLON))
    ensures var t := Join(left, COLON); t == [] || t[|t| - 1] != COLON
    ensures var t := Join(right, COLON); t == [] || t[0] != COLON
  {
    hide Join;
    JoinHasNoDoubleColon(left);
    JoinHasNoDoubleColon(right);
    JoinEnd(left);
    JoinStart(right);
  }

  lemma OneDoubleColon(a: seq<Byte>, b: seq<Byte>, i: int)
    requires NoDoubleColon(a) && NoDoubleColon(b)
    requires a == [] || a[|a| - 1] != COLON
    requires b == [] || b[0] != COLON
    ensures DoubleColonAt(a + [COLON, COLON] + b, i) <==> i == |a|
  {
    var t := a + [COLON, COLON] + b;
    assert !DoubleColonAt(a, i) && !DoubleColonAt(b, i - |a| - 2);
  }

  /** The text has a "::" exactly when two neighbouring blocks are zero, and then one, where the first run is. */
  lemma PrintedDoubleColon(words: seq<Word>, beyond: Word, i: int)
    requires |words| == 4
    ensures var blocks := BlocksOf(words, beyond);
            var k := FirstRun(blocks, 0);
            DoubleColonAt(Printed(words, beyond), i) <==>
            k != 8 && i == |Join(LeftPart(blocks, k), COLON)|
  {
    hide Join, From, BlocksOf, FirstRun, RunEnd, LeftPart, RightPart, WholePart;
    var blocks := BlocksOf(words, beyond);
    PrintedShape(blocks);
    var k := FirstRun(blocks, 0);
    if k == 8 {
      JoinHasNoDoubleColon(WholePart(blocks));
    } else {
      var left, right := LeftPart(blocks, k), RightPart(blocks, RunEnd(blocks, k));
      PartsHaveNoDoubleColon(left, right);
      OneDoubleColon(Join(left, COLON), Join(right, COLON), i);
    }
  }

  // ---------- the values come back ----------

  lemma {:induction false} HexValue(v: nat)
    ensures Eval(Hex(v), 16) == v
  {
    var t := Hex(v);
    if v < 16 {
      assert t[..0] == [];
    } else {
      HexValue(v / 16);
      assert t[..|t| - 1] == Hex(v / 16);
    }
  }

  lemma GroupValues(blocks: seq<Block>, from: nat, to: nat)
    requires |blocks| == 9 && from <= to <= 8
    ensures Values(Groups(blocks, from, to)) == blocks[from..to]
  {
    hide Eval, Hex;
    forall k | from <= k < to ensures Value(Hex(blocks[k])) == blocks[k] {
      HexValue(blocks[k]);
    }
  }

  lemma EmptyValues()
    ensures Values(EMPTY) == [0] && Value([]) == 0
  {
  }

  lemma WholeValues(blocks: seq<Block>)
    requires |blocks| == 9
    ensures Values(WholePart(blocks)) == blocks[..8]
  {
    GroupValues(blocks, 0, 7);
    HexValue(blocks[7]);
    EmptyValues();
    hide Eval, Hex;
    assert Values(WholePart(blocks)) == Values(Groups(blocks, 0, 7)) + [Value(LastGroup(blocks))];
  }

  lemma LeftValues(blocks: seq<Block>, k: nat)
    requires |blocks| == 9 && k <= 8
    ensures Values(LeftPart(blocks, k)) == if k == 0 then [0] else blocks[..k]
  {
    EmptyValues();
    GroupValues(blocks, 0, k);
  }

  lemma RightValues(blocks: seq<Block>, m: nat)
    requires |blocks| == 9 && m <= 8
    ensures Values(RightPart(blocks, m)) == if m == 8 then [0] else blocks[m..8]
  {
    EmptyValues();
    GroupValues(blocks, m, 8);
  }

  /** A run of zeros restored; at an edge one of its zeros is the empty group's. */
  lemma FillRun(blocks: seq<Block>, k: nat, m: nat)
    requires |blocks| == 9 && k + 2 <= m <= 8 && forall j :: k <= j < m ==> blocks[j] == 0
    ensures var left, right := if k == 0 then [0] else blocks[..k], if m == 8 then [0] else blocks[m..8];
            |left| + |right| <= 8 && left + Parser.NoBlocks(8 - |left| - |right|) + right == blocks[..8]
  {
  }

  lemma RunIsLong(blocks: seq<Block>, k: nat)
    requires |blocks| == 9 && k <= 6 && blocks[k] == 0 && blocks[k + 1] == 0
    ensures RunEnd(blocks, k) >= k + 2
  {
    assert RunEnd(blocks, k) == RunEnd(blocks, k + 1) == RunEnd(blocks, k + 2);
  }

  lemma GapValues(blocks: seq<Block>, k: nat)
    requires |blocks| == 9 && k == FirstRun(blocks, 0) <= 6
    ensures var left, right := LeftPart(blocks, k), RightPart(blocks, RunEnd(blocks, k));
            |left| + |right| <= 8 &&
            Values(left) + Parser.NoBlocks(8 - |left| - |right|) + Values(right) == blocks[..8]
  {
    hide FirstRun, RunEnd, Values, LeftPart, RightPart;
    var m := RunEnd(blocks, k);
    RunIsLong(blocks, k);
    FillRun(blocks, k, m);
    LeftValues(blocks, k);
    RightValues(blocks, m);
  }

  lemma BlockPair(words: seq<Word>, beyond: Word, k: nat)
    requires |words| == 4 && k < 4
    ensures var blocks, w := BlocksOf(words, beyond), SwapBytes(words[k]);
            blocks[2 * k] == w / 0x1_0000 && blocks[2 * k + 1] == w % 0x1_0000
  {
    hide SwapBytes;
  }

  lemma PairBack(w: Word)
    ensures SwapBytes(Parser.Pair(SwapBytes(w) / 0x1_0000, SwapBytes(w) % 0x1_0000)) == w
  {
    SwapBytesTwice(w);
    hide SwapBytes, Or, Shl;
    OrHalves(SwapBytes(w) / 0x1_0000, SwapBytes(w) % 0x1_0000);
  }

  lemma PackBlocks(words: seq<Word>, beyond: Word)
    requires |words| == 4
    ensures ToNetwork(BlocksOf(words, beyond)[..8]) == words
  {
    hide Parser.Pair, SwapBytes, BlocksOf;
    var blocks := BlocksOf(words, beyond);
    forall k | 0 <= k < 4
      ensures SwapBytes(Parser.Pair(blocks[2 * k], blocks[2 * k + 1])) == words[k]
    {
      BlockPair(words, beyond, k);
      PairBack(words[k]);
    }
  }

  /**
   * Round trip. Whatever word follows the array in memory, the printed text is accepted exactly when it has
   * no "::" or no letter before its last colon, and whenever it is accepted the address comes back.
   */
  lemma RoundTrip(words: seq<Word>, beyond: Word)
    requires |words| == 4
    ensures var t := Printed(words, beyond);
            Parser.Meaning(t) ==
            if NoDoubleColon(t) || !LetterBeforeColon(t) then Some(words) else None
  {
    hide Join, From, Values, RunEnd, FirstRun, LeftPart, RightPart, WholePart, BlocksOf;
    hide Parser.Meaning, ToNetwork, LetterBeforeColon;
    var blocks, t := BlocksOf(words, beyond), Printed(words, beyond);
    var k := FirstRun(blocks, 0);
    PrintedShape(blocks);
    PackBlocks(words, beyond);
    if k == 8 {
      var part := WholePart(blocks);
      assert NoDoubleColon(t) by { JoinHasNoDoubleColon(part); }
      WholeValues(blocks);
      MeaningOfText([part]);
    } else {
      var left, right := LeftPart(blocks, k), RightPart(blocks, RunEnd(blocks, k));
      PrintedDoubleColon(words, beyond, |Join(left, COLON)|);
      GapValues(blocks, k);
      MeaningWithOneGap(left, right);
    }
  }

  /** A buffer of 40 bytes is always enough. */
  lemma {:induction false} FromLength(blocks: seq<Block>, b: nat, flag: nat)
    requires |blocks| == 9 && b <= 8
    ensures |From(blocks, b, flag)| <= 5 * (8 - b) && (b == 0 ==> |From(blocks, b, flag)| <= 39)
    decreases 8 - b
  {
    hide From, Hex;
    if b < 8 {
      FromCases(blocks, b, flag);
      HexLength(blocks[b]);
      FromLength(blocks, b + 1, if flag == 1 then 2 else flag);
      FromLength(blocks, b + 1, 1);
    } else {
      LastIsEmpty(blocks, flag);
    }
  }

  lemma HexLength(v: Block)
    ensures |Hex(v)| <= 4
  {
    hide Hex, ToDecimalChar;
    HexNibbles(v);
  }

  lemma FitsInForty(words: seq<Word>, beyond: Word)
    requires |words| == 4
    ensures |Printed(words, beyond)| <= 39
  {
    hide From, BlocksOf;
    FromLength(BlocksOf(words, beyond), 0, 0);
  }

  // ---------- digits, bytes and the end of the text ----------

  /** A block is printed in the digits 0 to 9 and A to F, without a leading zero. */
  lemma {:induction false} HexIsShortest(v: nat)
    ensures forall k :: 0 <= k < |Hex(v)| ==> IsDigit(Hex(v)[k]) || 'A' as int <= Hex(v)[k] <= 'F' as int
    ensures v > 0 ==> Hex(v)[0] != '0' as int
    ensures v < 16 ==> |Hex(v)| == 1
  {
    if v >= 16 {
      HexIsShortest(v / 16);
    }
  }

  /** Block b is made of bytes 2b and 2b + 1 of the address in memory, the first one high; the ninth block, of the
      first two bytes after the address. */
  lemma BlockBytes(words: seq<Word>, beyond: Word, b: nat)
    requires |words| == 4 && b < 9
    ensures var w := (words + [beyond])[b / 2];
            BlocksOf(words, beyond)[b] ==
            if b % 2 == 0 then ByteOf(w, 0) * 0x100 + ByteOf(w, 1) else ByteOf(w, 2) * 0x100 + ByteOf(w, 3)
  {
    var w := (words + [beyond])[b / 2];
    hide ByteOf;
    Halves(ByteOf(w, 3), ByteOf(w, 2), ByteOf(w, 1), ByteOf(w, 0));
  }

  lemma Halves(b0: Byte, b1: Byte, b2: Byte, b3: Byte)
    ensures var w := FromBytes(b0, b1, b2, b3);
            w / 0x1_0000 == b3 * 0x100 + b2 && w % 0x1_0000 == b1 * 0x100 + b0
  {
    var w := FromBytes(b0, b1, b2, b3);
    assert w == (b3 * 0x100 + b2) * 0x1_0000 + (b1 * 0x100 + b0);
  }

  /** And the parser puts eight blocks into memory that way. */
  lemma ParsedBytes(blocks: seq<Block>, words: seq<Word>)
    requires |blocks| == 8 && |words| == 4
    requires forall k :: 0 <= k < 4 ==>
               && ByteOf(words[k], 0) == blocks[2 * k] / 0x100 && ByteOf(words[k], 1) == blocks[2 * k] % 0x100
               && ByteOf(words[k], 2) == blocks[2 * k + 1] / 0x100 && ByteOf(words[k], 3) == blocks[2 * k + 1] % 0x100
    ensures ToNetwork(blocks) == words
  {
    hide ByteOf, BlocksOf, ToNetwork;
    var all := BlocksOf(words, 0);
    forall b | 0 <= b < 8 ensures all[b] == blocks[b] {
      BlockBytes(words, 0, b);
      assert b == 2 * (b / 2) || b == 2 * (b / 2) + 1;
    }
    assert all[..8] == blocks;
    PackBlocks(words, 0);
  }

  lemma {:induction false} JoinLast(groups: seq<seq<Byte>>)
    requires |groups| > 0
    ensures var t, last := Join(groups, COLON), groups[|groups| - 1];
            && (last != [] ==> t != [] && t[|t| - 1] == last[|last| - 1])
            && (last == [] && |groups| > 1 ==> t != [] && t[|t| - 1] == COLON)
  {
    if |groups| > 1 {
      JoinLast(groups[1..]);
      if |groups| == 2 {
        assert Join(groups[1..], COLON) == groups[1];
      }
    }
  }

  lemma EndsInDigit(t: seq<Byte>)
    requires t != [] && AllHexa(t)
    ensures t[|t| - 1] != COLON
  {
  }

  /**
   * The text ends in a colon exactly when the last block is zero and either belongs to the run that is left out, or
   * stands alone with nothing but zeros in the two bytes after the address.
   */
  lemma EndsInColon(words: seq<Word>, beyond: Word)
    requires |words| == 4
    ensures var t, blocks := Printed(words, beyond), BlocksOf(words, beyond);
            var k := FirstRun(blocks, 0);
            t != [] && (t[|t| - 1] == COLON <==>
              blocks[7] == 0 && if k == 8 then ByteOf(beyond, 0) == 0 && ByteOf(beyond, 1) == 0
                                else RunEnd(blocks, k) == 8)
  {
    hide Join, From, BlocksOf, FirstRun, RunEnd, Hex, ByteOf;
    var blocks := BlocksOf(words, beyond);
    PrintedShape(blocks);
    BlockBytes(words, beyond, 8);
    var k := FirstRun(blocks, 0);
    if k == 8 {
      JoinLast(WholePart(blocks));
      EndsInDigit(Hex(blocks[7]));
    } else {
      var right := RightPart(blocks, RunEnd(blocks, k));
      RightEnds(blocks, RunEnd(blocks, k));
    }
  }

  lemma RightEnds(blocks: seq<Block>, m: nat)
    requires |blocks| == 9 && m <= 8
    ensures var t := Join(RightPart(blocks, m), COLON);
            if m == 8 then t == [] else t != [] && t[|t| - 1] != COLON
  {
    hide Join, Hex, Groups;
    EmptyText();
    if m < 8 {
      JoinLast(Groups(blocks, m, 8));
      EndsInDigit(Hex(blocks[7]));
    }
  }

  /** The address A::1, whose printed text the parser turns down. */
  lemma RejectedExample()
    ensures Parser.Meaning(Printed([SwapBytes(0xA_0000), 0, 0, SwapBytes(1)], 0)) == None
  {
    var words := [SwapBytes(0xA_0000), 0, 0, SwapBytes(1)];
    var t, blocks := Printed(words, 0), BlocksOf(words, 0);
    SwapBytesTwice(0xA_0000);
    assert blocks[0] == 0xA && blocks[1] == 0 && blocks[2] == 0;
    hide BlocksOf, SwapBytes, Parser.Meaning;
    FromCases(blocks, 0, 0);
    assert Hex(0xA) == [65];
    hide From;
    assert t[0] == 65;
    assert FirstRun(blocks, 0) == 1;
    GroupsOne(blocks, 0);
    PrintedDoubleColon(words, 0, 1);
    assert LetterBeforeColon(t) by { assert t[1] == COLON; }
    RoundTrip(words, 0);
  }
}
