/** The colon-hexadecimal printer: its loop over eight blocks, and the shape of the text it produces. */
module Ipv6Printer {
  import opened Words
  import opened Text

  type Block = n: nat | n < 0x1_0000

  /** The nine half-words the loop looks at: the eight of the address and the high half of whatever word
      follows the array in memory, which is read when block 7 is zero. */
  function BlocksOf(words: seq<Word>, beyond: Word): (blocks: seq<Block>)
    requires |words| == 4
    ensures |blocks| == 9
  {
    var all := words + [beyond];
    seq(9, b requires 0 <= b < 9 =>
      if b % 2 == 0 then SwapBytes(all[b / 2]) / 0x1_0000 else SwapBytes(all[b / 2]) % 0x1_0000)
  }

  /** A block in hexadecimal, no leading zeros. */
  function Hex(v: nat): (t: seq<Byte>)
    ensures t != [] && AllHexa(t)
    decreases v
  {
    if v < 16 then [ToDecimalChar(v)] else Hex(v / 16) + [ToDecimalChar(v % 16)]
  }

  /** A block with the colon before it. */
  function Group(b: nat, v: Block): seq<Byte> {
    (if b > 0 then [COLON] else []) + Hex(v)
  }

  /** What the loop still writes from block b on; flag is 0 before the first run of zeros, 1 in it, 2 after it. */
  function From(blocks: seq<Block>, b: nat, flag: nat): seq<Byte>
    requires |blocks| == 9 && b <= 8
    decreases 8 - b
  {
    if b == 8 then []
    else if blocks[b] == 0 && b == 7 && flag == 1 then [COLON]
    else if blocks[b] == 0 && flag == 0 && blocks[b + 1] == 0 then [COLON] + From(blocks, b + 1, 1)
    else if blocks[b] == 0 && flag == 1 then From(blocks, b + 1, 1)
    else Group(b, blocks[b]) + From(blocks, b + 1, if flag == 1 then 2 else flag)
  }

  // ---------- the source's loop ----------

  /** The text written so far, all of it within the size given. */
  ghost predicate Written(buffer: array<Byte>, size: nat, length: nat, text: seq<Byte>)
    reads buffer
  {
    length == |text| < size <= buffer.Length && buffer[..length] == text
  }

  twostate predicate Untouched(buffer: array<Byte>, size: nat)
    reads buffer
  {
    forall k :: size <= k < buffer.Length ==> buffer[k] == old(buffer[k])
  }

  /** One character; no room when the buffer is now full, and the caller gives up. */
  method Put(buffer: array<Byte>, size: nat, start: nat, c: Byte, ghost text: seq<Byte>)
    returns (room: bool, length: nat)
    requires Written(buffer, size, start, text)
    modifies buffer
    ensures room == (|text| + 1 < size)
    ensures room ==> Written(buffer, size, length, text + [c])
    ensures Untouched(buffer, size)
  {
    buffer[start] := c;
    length := start + 1;
    room := length < size;
    assert buffer[..length] == buffer[..start] + [c];
  }

  /** A hexadecimal digit, or nothing for a leading zero. */
  function Nibble(d: nat, force: bool): seq<Byte>
    requires d < 16
  {
    if d != 0 || force then [ToDecimalChar(d)] else []
  }

  lemma HexNibbles(v: Block)
    ensures var d3, d2, d1, d0 := v / 0x1000, v / 0x100 % 0x10, v / 0x10 % 0x10, v % 0x10;
            Hex(v) == Nibble(d3, false) + Nibble(d2, d3 != 0) + Nibble(d1, d3 != 0 || d2 != 0) + [ToDecimalChar(d0)]
  {
    hide ToDecimalChar;
    assert v / 0x10 / 0x10 == v / 0x100 && v / 0x100 / 0x10 == v / 0x1000;
    assert v >= 0x10 ==> Hex(v) == Hex(v / 0x10) + [ToDecimalChar(v % 0x10)];
    assert v >= 0x100 ==> Hex(v / 0x10) == Hex(v / 0x100) + [ToDecimalChar(v / 0x10 % 0x10)];
    assert v >= 0x1000 ==> Hex(v / 0x100) == Hex(v / 0x1000) + [ToDecimalChar(v / 0x100 % 0x10)];
  }

  method PutNibble(buffer: array<Byte>, size: nat, start: nat, d: nat, zeroFlag: bool, ghost text: seq<Byte>)
    returns (room: bool, length: nat, stillZero: bool)
    requires d < 16 && Written(buffer, size, start, text)
    modifies buffer
    ensures room == (|text| + |Nibble(d, !zeroFlag)| < size)
    ensures room ==> Written(buffer, size, length, text + Nibble(d, !zeroFlag))
    ensures stillZero == (d == 0 && zeroFlag)
    ensures Untouched(buffer, size)
  {
    hide ToDecimalChar;
    room, length, stillZero := true, start, zeroFlag;
    if d == 0 && zeroFlag {
      assert text + [] == text;
    } else {
      room, length := Put(buffer, size, length, ToDecimalChar(d), text);
      stillZero := false;
    }
  }

  /** The four hexadecimal digits of a block, the leading zeros left out. */
  method PutBlock(buffer: array<Byte>, size: nat, start: nat, v: Block, ghost text: seq<Byte>)
    returns (room: bool, length: nat)
    requires Written(buffer, size, start, text)
    modifies buffer
    ensures room == (|text| + |Hex(v)| < size)
    ensures room ==> Written(buffer, size, length, text + Hex(v))
    ensures Untouched(buffer, size)
  {
    HexNibbles(v);
    hide Hex, ToDecimalChar, Nibble;
    var d3, d2, d1, d0 := v / 0x1000, v / 0x100 % 0x10, v / 0x10 % 0x10, v % 0x10;
    var zeroFlag;
    ghost var t3 := text + Nibble(d3, false);
    ghost var t2 := t3 + Nibble(d2, d3 != 0);
    ghost var t1 := t2 + Nibble(d1, d3 != 0 || d2 != 0);
    assert t1 + [ToDecimalChar(d0)] == text + Hex(v);
    room, length, zeroFlag := PutNibble(buffer, size, start, d3, true, text);
    if !room { return; }
    room, length, zeroFlag := PutNibble(buffer, size, length, d2, zeroFlag, t3);
    if !room { return; }
    room, length, zeroFlag := PutNibble(buffer, size, length, d1, zeroFlag, t2);
    if !room { return; }
    room, length := Put(buffer, size, length, ToDecimalChar(d0), t1);
  }

  function Printed(words: seq<Word>, beyond: Word): seq<Byte>
    requires |words| == 4
  {
    From(BlocksOf(words, beyond), 0, 0)
  }

  lemma Regroup(text: seq<Byte>, piece: seq<Byte>, rest: seq<Byte>)
    ensures text + (piece + rest) == (text + piece) + rest
  {
  }

  /** What is left at the head of an iteration, by the branch the iteration takes. */
  lemma FromCases(blocks: seq<Block>, b: nat, flag: nat)
    requires |blocks| == 9 && b < 8
    ensures var v := blocks[b];
            if v == 0 && b == 7 && flag == 1 then From(blocks, b, flag) == [COLON]
            else if v == 0 && flag == 0 && blocks[b + 1] == 0 then
              From(blocks, b, flag) == [COLON] + From(blocks, b + 1, 1)
            else if v == 0 && flag == 1 then From(blocks, b, flag) == From(blocks, b + 1, 1)
            else From(blocks, b, flag) == Group(b, v) + From(blocks, b + 1, if flag == 1 then 2 else flag)
  {
  }

  method PutGroup(buffer: array<Byte>, size: nat, start: nat, b: nat, v: Block, ghost text: seq<Byte>)
    returns (room: bool, length: nat)
    requires Written(buffer, size, start, text)
    modifies buffer
    ensures room == (|text| + |Group(b, v)| < size)
    ensures room ==> Written(buffer, size, length, text + Group(b, v))
    ensures Untouched(buffer, size)
  {
    hide Hex;
    room, length := true, start;
    if b > 0 {
      room, length := Put(buffer, size, length, COLON, text);
      if !room { return; }
      assert text + Group(b, v) == (text + [COLON]) + Hex(v);
      room, length := PutBlock(buffer, size, length, v, text + [COLON]);
    } else {
      assert Group(b, v) == Hex(v);
      room, length := PutBlock(buffer, size, length, v, text);
    }
  }

  /** False (the source's null pointer) exactly when the text with its terminator does not fit. */
  method NetworkToAscii(words: seq<Word>, beyond: Word, buffer: array<Byte>, size: nat) returns (fits: bool)
    requires |words| == 4 && 0 < size <= buffer.Length
    modifies buffer
    ensures fits == (|Printed(words, beyond)| < size)
    ensures fits ==> var n := |Printed(words, beyond)|; buffer[..n] == Printed(words, beyond) && buffer[n] == 0
    ensures forall k :: size <= k < buffer.Length ==> buffer[k] == old(buffer[k])
  {
    hide Hex, BlocksOf, From, Group;
    var blocks := BlocksOf(words, beyond);
    ghost var full := From(blocks, 0, 0);
    ghost var text: seq<Byte> := [];
    ghost var rest := full;
    var b, flag := 0, 0;
    var length: nat := 0;
    while b < 8
      invariant 0 <= b <= 8 && flag <= 2
      invariant Written(buffer, size, length, text)
      invariant text + rest == full && rest == From(blocks, b, flag)
      invariant Untouched(buffer, size)
    {
      FromCases(blocks, b, flag);
      var v := blocks[b];
      var room := true;
      if v == 0 && b == 7 && flag == 1 {
        room, length := Put(buffer, size, length, COLON, text);
        if !room { return false; }
        text, rest := full, [];
        break;
      }
      if v == 0 && flag == 0 && blocks[b + 1] == 0 {
        flag := 1;
        room, length := Put(buffer, size, length, COLON, text);
        if !room { return false; }
        rest := From(blocks, b + 1, 1);
        Regroup(text, [COLON], rest);
        text := text + [COLON];
      } else if v == 0 && flag == 1 {
      } else {
        if v != 0 && flag == 1 {
          flag := 2;
        }
        room, length := PutGroup(buffer, size, length, b, v, text);
        if !room { return false; }
        rest := From(blocks, b + 1, flag);
        Regroup(text, Group(b, v), rest);
        text := text + Group(b, v);
      }
      b := b + 1;
    }
    LastIsEmpty(blocks, flag);
    assert text == full;
    buffer[length] := 0;
    return true;
  }

  lemma LastIsEmpty(blocks: seq<Block>, flag: nat)
    requires |blocks| == 9
    ensures From(blocks, 8, flag) == []
  {
  }
}
