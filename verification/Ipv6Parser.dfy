/**
 * The colon-hexadecimal parser: what the source's scan over the characters, words and block counter
 * computes on any terminated string. What that means for texts written as groups is the matter of Ipv6Spelling.
 */
module Ipv6Parser {
  import opened Words
  import opened Text
  import V4 = Ipv4Parser

  /** Ip6Addr_t: four words in network order and the zone. */
  class Ip6Addr {
    var addr: seq<Word>
    var zone: Byte

    ghost predicate Valid()
      reads this
    {
      |addr| == 4
    }

    constructor (words: seq<Word>)
      requires |words| == 4
      ensures Valid() && addr == words
    {
      addr := words;
      zone := 0;
    }
  }

  // ---------- specification ----------

  datatype ColonCount = BadDot | Counted(zeros: Word, dotted: bool)

  /** The first scan: how many blocks a "::" would have to stand for, 8 less the colons seen before the first
      character that is neither a colon nor a decimal digit. */
  function CountColons(s: seq<Byte>, zeros: Word): ColonCount {
    if s == [] || s[0] == 0 then Counted(zeros, false)
    else if s[0] == COLON then CountColons(s[1..], Wrap(zeros - 1))
    else if s[0] == DOT then
      if zeros == 5 || zeros == 2 then Counted(zeros - 1, true) else BadDot
    else if !IsDigit(s[0]) then Counted(zeros, false)
    else CountColons(s[1..], zeros)
  }

  /** One host-order word from two blocks; a block of more than four digits spills into its neighbour. */
  function Pair(high: Word, low: Word): Word {
    Or(Shl(high, 0x1_0000), low)
  }

  function Pack(blocks: seq<Word>): (words: seq<Word>)
    ensures |words| == |blocks| / 2
  {
    seq(|blocks| / 2, k requires 0 <= k < |blocks| / 2 => Pair(blocks[2 * k], blocks[2 * k + 1]))
  }

  function NoBlocks(n: nat): (z: seq<Word>)
    ensures |z| == n
  {
    seq(n, _ => 0)
  }

  /** The second scan, on the blocks closed so far and the value of the open one: host-order words or rejection. */
  function Scan(s: seq<Byte>, closed: seq<Word>, value: Word, zeros: Word, dotted: bool): Option<seq<Word>>
    requires |closed| <= 7
    decreases |s|
  {
    if s != [] && s[0] == COLON then
      var blocks := closed + [value];
      if dotted && |blocks| == 6 && V4.Meaning(s[1..]).Some? then
        Some(Pack(blocks) + [SwapBytes(V4.Meaning(s[1..]).value)])
      else if |blocks| > 7 then None
      else if |s| > 1 && s[1] == COLON then
        if (|s| > 2 && s[2] == COLON) || |blocks| + zeros > 7 then None
        else Scan(s[2..], blocks + NoBlocks(zeros), 0, 0, dotted)
      else Scan(s[1..], blocks, 0, zeros, dotted)
    else if s != [] && IsHexaDigit(s[0]) then
      Scan(s[1..], closed, Wrap(value * 16 + DigitValue(s[0])), zeros, dotted)
    else if |closed| == 7 then Some(Pack(closed + [value]))
    else None
  }

  function SwapAll(words: seq<Word>): (r: seq<Word>)
    ensures |r| == |words|
  {
    seq(|words|, k requires 0 <= k < |words| => SwapBytes(words[k]))
  }

  /** What a text means: four words in network order, or nothing. */
  function Meaning(s: seq<Byte>): Option<seq<Word>> {
    match CountColons(s, 8)
    case BadDot => None
    case Counted(zeros, dotted) =>
      match Scan(s, [], 0, zeros, dotted)
      case None => None
      case Some(words) => Some(SwapAll(words))
  }

  lemma {:induction false} ScanGivesFourWords(s: seq<Byte>, closed: seq<Word>, value: Word, zeros: Word, dotted: bool)
    requires |closed| <= 7
    ensures var r := Scan(s, closed, value, zeros, dotted); r.Some? ==> |r.value| == 4
    decreases |s|
  {
    hide Wrap, Pair, V4.Meaning, CountColons;
    if s != [] && s[0] == COLON {
      var blocks := closed + [value];
      if |blocks| > 7 {
      } else if |s| > 1 && s[1] == COLON {
        if |blocks| + zeros <= 7 {
          ScanGivesFourWords(s[2..], blocks + NoBlocks(zeros), 0, 0, dotted);
        }
      } else {
        ScanGivesFourWords(s[1..], blocks, 0, zeros, dotted);
      }
    } else if s != [] && IsHexaDigit(s[0]) {
      ScanGivesFourWords(s[1..], closed, Wrap(value * 16 + DigitValue(s[0])), zeros, dotted);
    }
  }

  // ---------- the source's loops ----------

  /** The words written so far hold exactly the blocks closed so far. */
  ghost predicate Holds(words: seq<Word>, blocks: seq<Word>) {
    && |words| == 4 && |blocks| <= 8
    && (forall k :: 0 <= k < |blocks| / 2 ==> words[k] == Pair(blocks[2 * k], blocks[2 * k + 1]))
    && (|blocks| % 2 == 1 ==> words[|blocks| / 2] == Shl(blocks[|blocks| - 1], 0x1_0000))
  }

  lemma HoldsPack(words: seq<Word>, blocks: seq<Word>)
    requires Holds(words, blocks) && |blocks| % 2 == 0
    ensures words[..|blocks| / 2] == Pack(blocks)
  {
    hide Pair;
  }

  method CountZeroBlocks(s: seq<Byte>) returns (valid: bool, zeros: Word, mapped: bool)
    ensures valid == CountColons(s, 8).Counted?
    ensures valid ==> CountColons(s, 8) == Counted(zeros, mapped)
  {
    hide Wrap;
    valid, zeros, mapped := true, 8, false;
    var i := 0;
    assert s[0..] == s;
    while i < |s| && s[i] != 0
      invariant 0 <= i <= |s| && !mapped
      invariant CountColons(s[i..], zeros) == CountColons(s, 8)
    {
      assert s[i..][1..] == s[i + 1..];
      if s[i] == COLON {
        zeros := Wrap(zeros - 1);
      } else if s[i] == DOT {
        if zeros == 5 || zeros == 2 {
          mapped := true;
          zeros := zeros - 1;
        } else {
          valid := false;
        }
        return;
      } else if !IsDigit(s[i]) {
        return;
      }
      i := i + 1;
    }
  }

  /** Closing a block: the high half overwrites the word, the low half is or-ed into it. */
  method StoreBlock(address: Ip6Addr, addrIndex: nat, blockIndex: nat, value: Word, ghost closed: seq<Word>)
    returns (nextIndex: nat)
    requires Holds(address.addr, closed) && blockIndex == |closed| <= 7 && addrIndex == blockIndex / 2
    modifies address`addr
    ensures Holds(address.addr, closed + [value])
    ensures nextIndex == (blockIndex + 1) / 2
  {
    hide Or, Shl;
    ghost var blocks := closed + [value];
    ghost var before := address.addr;
    nextIndex := addrIndex;
    if blockIndex % 2 == 1 {
      address.addr := address.addr[addrIndex := Or(address.addr[addrIndex], value)];
      nextIndex := addrIndex + 1;
    } else {
      address.addr := address.addr[addrIndex := Shl(value, 0x1_0000)];
    }
    forall k | 0 <= k < |blocks| / 2
      ensures address.addr[k] == Pair(blocks[2 * k], blocks[2 * k + 1])
    {
      assert k < |closed| / 2 ==> before[k] == Pair(closed[2 * k], closed[2 * k + 1]);
    }
  }

  /** A zero block closes a word as it is, or opens the next one with zero. */
  lemma HoldsZero(words: seq<Word>, blocks: seq<Word>)
    requires Holds(words, blocks) && |blocks| <= 7
    ensures |blocks| % 2 == 1 ==> Holds(words, blocks + [0])
    ensures |blocks| % 2 == 0 ==> Holds(words[|blocks| / 2 := 0], blocks + [0])
  {
    var more := blocks + [0];
    if |blocks| % 2 == 1 {
      assert Pair(blocks[|blocks| - 1], 0) == Shl(blocks[|blocks| - 1], 0x1_0000);
    } else {
      assert Shl(0, 0x1_0000) == 0;
    }
    hide Pair, Shl;
    forall k | 0 <= k < |blocks| / 2
      ensures words[k] == Pair(more[2 * k], more[2 * k + 1])
    {
      assert words[k] == Pair(blocks[2 * k], blocks[2 * k + 1]);
    }
  }

  /** "::" found: the zero blocks, one at a time, while they fit. */
  method FillZeros(address: Ip6Addr, addrIndex: nat, blockIndex: nat, zeroBlocks: Word, ghost closed: seq<Word>)
    returns (fits: bool, nextIndex: nat, nextBlock: nat)
    requires Holds(address.addr, closed) && blockIndex == |closed| <= 7 && addrIndex == blockIndex / 2
    modifies address`addr
    ensures fits == (|closed| + zeroBlocks <= 7)
    ensures fits ==> Holds(address.addr, closed + NoBlocks(zeroBlocks))
    ensures fits ==> nextBlock == |closed| + zeroBlocks && nextIndex == nextBlock / 2
    ensures |address.addr| == 4
  {
    hide Pair, Shl;
    var left := zeroBlocks;
    nextIndex, nextBlock := addrIndex, blockIndex;
    ghost var blocks := closed;
    while left > 0
      invariant 0 <= left <= zeroBlocks
      invariant blocks == closed + NoBlocks(zeroBlocks - left)
      invariant nextBlock == |blocks| <= 7 && nextIndex == nextBlock / 2
      invariant Holds(address.addr, blocks)
    {
      HoldsZero(address.addr, blocks);
      left := left - 1;
      if nextBlock % 2 == 1 {
        nextIndex := nextIndex + 1;
      } else {
        address.addr := address.addr[nextIndex := 0];
      }
      nextBlock := nextBlock + 1;
      blocks := blocks + [0];
      if nextBlock > 7 {
        return false, nextIndex, nextBlock;
      }
    }
    fits := true;
  }

  method FixByteOrder(address: Ip6Addr)
    requires address.Valid()
    modifies address`addr
    ensures address.addr == SwapAll(old(address.addr))
  {
    hide SwapBytes;
    var k := 0;
    while k < 4
      invariant 0 <= k <= 4 && |address.addr| == 4
      invariant forall j :: 0 <= j < k ==> address.addr[j] == SwapBytes(old(address.addr)[j])
      invariant forall j :: k <= j < 4 ==> address.addr[j] == old(address.addr)[j]
    {
      address.addr := address.addr[k := SwapBytes(address.addr[k])];
      k := k + 1;
    }
  }

  predicate Embeds(s: seq<Byte>, blocks: seq<Word>, dotted: bool) {
    dotted && |blocks| == 6 && V4.Meaning(s).Some?
  }

  predicate ColonAt(s: seq<Byte>, i: nat) {
    i < |s| && s[i] == COLON
  }

  /** The scan at a colon, case by case. */
  lemma ScanAtColon(s: seq<Byte>, i: nat, closed: seq<Word>, value: Word, zeros: Word, dotted: bool)
    requires ColonAt(s, i) && |closed| <= 7
    ensures var blocks := closed + [value];
            var r := Scan(s[i..], closed, value, zeros, dotted);
            if Embeds(s[i + 1..], blocks, dotted) then
              r == Some(Pack(blocks) + [SwapBytes(V4.Meaning(s[i + 1..]).value)])
            else if |blocks| > 7 || (ColonAt(s, i + 1) && (ColonAt(s, i + 2) || |blocks| + zeros > 7)) then r == None
            else if ColonAt(s, i + 1) then r == Scan(s[i + 2..], blocks + NoBlocks(zeros), 0, 0, dotted)
            else r == Scan(s[i + 1..], blocks, 0, zeros, dotted)
  {
    hide V4.Meaning, Pack, SwapBytes, NoBlocks;
    var rest := s[i..];
    assert rest[1..] == s[i + 1..];
    if |rest| > 1 {
      assert rest[2..] == s[i + 2..];
    }
  }

  lemma ScanElsewhere(s: seq<Byte>, i: nat, closed: seq<Word>, value: Word, zeros: Word, dotted: bool)
    requires i <= |s| && !ColonAt(s, i) && |closed| <= 7
    ensures var r := Scan(s[i..], closed, value, zeros, dotted);
            if i < |s| && IsHexaDigit(s[i]) then
              r == Scan(s[i + 1..], closed, Wrap(value * 16 + DigitValue(s[i])), zeros, dotted)
            else r == if |closed| == 7 then Some(Pack(closed + [value])) else None
  {
    hide V4.Meaning, Pack, SwapBytes, Wrap;
    if i < |s| {
      assert s[i..][1..] == s[i + 1..];
    }
  }

  /**
   * Accepts exactly the texts that have a meaning, for every terminated string and whatever the address held
   * before: an accepted parse writes all four words.
   */
  method AsciiToNetwork(s: seq<Byte>, address: Ip6Addr) returns (status: int)
    requires address.Valid()
    modifies address
    ensures address.Valid()
    ensures status == if Meaning(s).Some? then 1 else 0
    ensures status == 1 ==> address.addr == Meaning(s).value && address.zone == 0
  {
    hide Wrap, Or, Pair, Scan, CountColons, V4.Meaning, SwapBytes;
    var valid, zeros, mapped := CountZeroBlocks(s);
    if !valid {
      return 0;
    }
    ghost var goal := Scan(s, [], 0, zeros, mapped);
    var i, addrIndex, blockIndex := 0, 0, 0;
    var value: Word := 0;
    var embedded := false;
    ghost var closed: seq<Word> := [];
    assert s[0..] == s;
    while i < |s| && s[i] != 0
      invariant 0 <= i <= |s| && !embedded
      invariant blockIndex == |closed| <= 7 && addrIndex == blockIndex / 2
      invariant Holds(address.addr, closed)
      invariant Scan(s[i..], closed, value, zeros, mapped) == goal
    {
      if s[i] == COLON {
        ScanAtColon(s, i, closed, value, zeros, mapped);
        addrIndex := StoreBlock(address, addrIndex, blockIndex, value, closed);
        blockIndex := blockIndex + 1;
        closed := closed + [value];
        if mapped && blockIndex == 6 {
          var ret, ip4 := V4.AsciiToNetwork(s[i + 1..], 0);
          if ret == 1 {
            HoldsPack(address.addr, closed);
            address.addr := address.addr[3 := SwapBytes(ip4)];
            assert address.addr == Pack(closed) + [SwapBytes(ip4)];
            blockIndex := blockIndex + 1;
            embedded := true;
            break;
          }
        }
        value := 0;
        if blockIndex > 7 {
          return 0;
        }
        if i + 1 < |s| && s[i + 1] == COLON {
          if i + 2 < |s| && s[i + 2] == COLON {
            return 0;
          }
          i := i + 1;
          var fits;
          fits, addrIndex, blockIndex := FillZeros(address, addrIndex, blockIndex, zeros, closed);
          if !fits {
            return 0;
          }
          closed := closed + NoBlocks(zeros);
          zeros := 0;
        }
      } else if IsHexaDigit(s[i]) {
        ScanElsewhere(s, i, closed, value, zeros, mapped);
        value := Wrap(value * 16 + (if IsDigit(s[i]) then s[i] - 48
                                    else 10 + (if IsLower(s[i]) then s[i] - 97 else s[i] - 65)));
      } else {
        break;
      }
      i := i + 1;
    }
    if !embedded {
      ScanElsewhere(s, i, closed, value, zeros, mapped);
      addrIndex := StoreBlock(address, addrIndex, blockIndex, value, closed);
      if blockIndex == 7 {
        HoldsPack(address.addr, closed + [value]);
        assert address.addr[..4] == address.addr;
      }
    }
    FixByteOrder(address);
    address.zone := 0;
    if blockIndex != 7 {
      return 0;
    }
    return 1;
  }
}
