/** The dotted-decimal printer, which stops writing when the buffer is full, and its round trip. */
module Ipv4Printer {
  import opened Words
  import opened Text
  import Parser = Ipv4Parser

  function Decimal(v: nat): (t: seq<Byte>)
    ensures t != []
    decreases v
  {
    if v < 10 then [48 + v] else Decimal(v / 10) + [48 + v % 10]
  }

  function DecimalBytes(bytes: seq<Byte>): (t: seq<seq<Byte>>)
    ensures |t| == |bytes|
  {
    seq(|bytes|, k requires 0 <= k < |bytes| => Decimal(bytes[k]))
  }

  /** The bytes of a network-order word, in memory order. */
  function BytesOf(address: Word): seq<Byte> {
    [ByteOf(address, 0), ByteOf(address, 1), ByteOf(address, 2), ByteOf(address, 3)]
  }

  /** The full text of an address, however long the buffer is. */
  function Dotted(address: Word): seq<Byte> {
    Join(DecimalBytes(BytesOf(address)), DOT)
  }

  function Min(a: nat, b: nat): nat {
    if a < b then a else b
  }

  /** A text written into a buffer of a given size as far as it fits. */
  ghost predicate Written(buffer: array<Byte>, size: nat, length: nat, text: seq<Byte>)
    reads buffer
  {
    length == Min(|text|, size) && length <= buffer.Length && buffer[..length] == text[..length]
  }

  method PutIfRoom(buffer: array<Byte>, size: nat, length: nat, c: Byte, ghost text: seq<Byte>) returns (next: nat)
    requires size <= buffer.Length && Written(buffer, size, length, text)
    modifies buffer
    ensures Written(buffer, size, next, text + [c])
    ensures forall k :: size <= k < buffer.Length ==> buffer[k] == old(buffer[k])
  {
    next := length;
    if length < size {
      buffer[length] := c;
      next := length + 1;
      assert buffer[..next] == text + [c];
    } else {
      assert (text + [c])[..length] == text[..length];
    }
  }

  function Reversed(s: seq<Byte>): seq<Byte> {
    if s == [] then [] else Reversed(s[1..]) + [s[0]]
  }

  lemma {:induction false} ReversedLast(s: seq<Byte>, c: Byte)
    ensures Reversed(s + [c]) == [c] + Reversed(s)
  {
    if s != [] {
      assert (s + [c])[0] == s[0] && (s + [c])[1..] == s[1..] + [c];
      ReversedLast(s[1..], c);
    }
  }

  /** The digits of a byte, lowest first, in an array of three. */
  method LowDigitsFirst(byte: Byte) returns (inv: array<Byte>, i: nat)
    ensures fresh(inv) && 1 <= i <= 3 && inv.Length == 3
    ensures Reversed(inv[..i]) == Decimal(byte)
  {
    inv := new Byte[3](_ => 0);
    var val: nat := byte / 10;
    inv[0] := 48 + byte % 10;
    i := 1;
    assert inv[..1] == [] + [inv[0]];
    ReversedLast([], inv[0]);
    while val != 0 && i < 3
      invariant 1 <= i <= 3 && (i == 1 ==> val < 26) && (i == 2 ==> val < 3) && (i == 3 ==> val == 0)
      invariant Decimal(byte) == (if val == 0 then [] else Decimal(val)) + Reversed(inv[..i])
    {
      var digit := 48 + val % 10;
      ghost var low := inv[..i];
      ReversedLast(low, digit);
      inv[i] := digit;
      assert inv[..i + 1] == low + [digit];
      val := val / 10;
      i := i + 1;
    }
  }

  lemma ReversedNone()
    ensures Reversed([]) == []
  {
  }

  /** One byte of the address in decimal. */
  method PutByte(buffer: array<Byte>, size: nat, start: nat, byte: Byte, ghost text: seq<Byte>) returns (length: nat)
    requires size <= buffer.Length && Written(buffer, size, start, text)
    modifies buffer
    ensures Written(buffer, size, length, text + Decimal(byte))
    ensures forall k :: size <= k < buffer.Length ==> buffer[k] == old(buffer[k])
  {
    hide Decimal, Reversed, Written;
    ReversedNone();
    var inv, i := LowDigitsFirst(byte);
    length := start;
    ghost var written := text;
    assert inv != buffer;
    while i != 0
      invariant 0 <= i <= 3 && Written(buffer, size, length, written)
      invariant written + Reversed(inv[..i]) == text + Decimal(byte)
      invariant forall k :: size <= k < buffer.Length ==> buffer[k] == old(buffer[k])
    {
      i := i - 1;
      ReversedLast(inv[..i], inv[i]);
      assert inv[..i + 1] == inv[..i] + [inv[i]];
      assert written + ([inv[i]] + Reversed(inv[..i])) == (written + [inv[i]]) + Reversed(inv[..i]);
      length := PutIfRoom(buffer, size, length, inv[i], written);
      written := written + [inv[i]];
    }
    assert inv[..0] == [] && written + [] == written;
  }

  /** The terminator, over the last character if there is no room. */
  method Terminate(buffer: array<Byte>, size: nat, length: nat, ghost text: seq<Byte>)
    requires 0 < size <= buffer.Length && Written(buffer, size, length, text)
    modifies buffer
    ensures var n := Min(|text|, size - 1); buffer[..n] == text[..n] && buffer[n] == 0
    ensures forall k :: size <= k < buffer.Length ==> buffer[k] == old(buffer[k])
  {
    if length < size {
      buffer[length] := 0;
    } else {
      buffer[size - 1] := 0;
    }
  }

  /** The longest prefix that fits, then a terminator; nothing beyond the given size is touched. */
  method NetworkToAscii(address: Word, buffer: array<Byte>, size: nat)
    requires 0 < size <= buffer.Length
    modifies buffer
    ensures var n := Min(|Dotted(address)|, size - 1);
            buffer[..n] == Dotted(address)[..n] && buffer[n] == 0
    ensures forall k :: size <= k < buffer.Length ==> buffer[k] == old(buffer[k])
  {
    hide Join, Decimal, Written, Dotted;
    var bytes := BytesOf(address);
    var length: nat := 0;
    ghost var text: seq<Byte> := [];
    var n := 0;
    DottedIs(address);
    NothingWritten(buffer, size);
    while n < 4
      invariant 0 <= n <= 4 && Written(buffer, size, length, text)
      invariant n < 4 ==> text + Join(DecimalBytes(bytes)[n..], DOT) == Dotted(address)
      invariant n == 4 ==> text == Dotted(address)
      invariant forall k :: size <= k < buffer.Length ==> buffer[k] == old(buffer[k])
    {
      JoinFrom(DecimalBytes(bytes), DOT, n);
      length := PutByte(buffer, size, length, bytes[n], text);
      ghost var rest := Join(DecimalBytes(bytes)[n..], DOT);
      assert n < 3 ==> text + rest == text + Decimal(bytes[n]) + [DOT] + Join(DecimalBytes(bytes)[n + 1..], DOT);
      text := text + Decimal(bytes[n]);
      if n < 3 {
        length := PutIfRoom(buffer, size, length, DOT, text);
        text := text + [DOT];
      }
      n := n + 1;
    }
    Terminate(buffer, size, length, text);
  }

  lemma DottedIs(address: Word)
    ensures [] + Join(DecimalBytes(BytesOf(address))[0..], DOT) == Dotted(address)
  {
    assert DecimalBytes(BytesOf(address))[0..] == DecimalBytes(BytesOf(address));
  }

  lemma NothingWritten(buffer: array<Byte>, size: nat)
    ensures Written(buffer, size, 0, [])
  {
  }

  // ---------- round trip ----------

  lemma {:induction false} DecimalSpells(v: nat)
    ensures Parser.DigitsOf(Decimal(v), 10) && Eval(Decimal(v), 10) == v
    ensures v == 0 ==> Decimal(v) == [ZERO]
    ensures v != 0 ==> Decimal(v)[0] != ZERO
  {
    var t := Decimal(v);
    if v < 10 {
      assert t[..0] == [];
    } else {
      DecimalSpells(v / 10);
      assert t[..|t| - 1] == Decimal(v / 10);
    }
  }

  /** Zero is printed as a lone 0, which the parser reads as octal: the value is the same. */
  lemma DecimalIsASpelling(v: nat)
    ensures Parser.Spells(Decimal(v), v)
  {
    DecimalSpells(v);
    if v == 0 {
      assert Decimal(0)[..0] == [];
      assert Eval([ZERO], 8) == 0;
    }
  }

  /** The bytes are printed in the order they have in memory, lowest first: 192, 168, 1, 15 for 192.168.1.15. */
  lemma DottedInMemoryOrder(b0: Byte, b1: Byte, b2: Byte, b3: Byte)
    ensures Dotted(b0 + 0x100 * b1 + 0x1_0000 * b2 + 0x100_0000 * b3)
         == Decimal(b0) + [46] + Decimal(b1) + [46] + Decimal(b2) + [46] + Decimal(b3)
  {
    hide Decimal, Join, BytesOf, DecimalBytes;
    BytesInOrder(b0, b1, b2, b3);
    FourDecimals(b0, b1, b2, b3);
    FourJoined(Decimal(b0), Decimal(b1), Decimal(b2), Decimal(b3));
  }

  lemma FourDecimals(b0: Byte, b1: Byte, b2: Byte, b3: Byte)
    ensures DecimalBytes([b0, b1, b2, b3]) == [Decimal(b0), Decimal(b1), Decimal(b2), Decimal(b3)]
  {
    hide Decimal;
  }

  lemma BytesInOrder(b0: Byte, b1: Byte, b2: Byte, b3: Byte)
    ensures BytesOf(b0 + 0x100 * b1 + 0x1_0000 * b2 + 0x100_0000 * b3) == [b0, b1, b2, b3]
  {
    hide ByteOf;
    BytesOfFromBytes(b0, b1, b2, b3);
  }

  lemma FourJoined(a: seq<Byte>, b: seq<Byte>, c: seq<Byte>, d: seq<Byte>)
    ensures Join([a, b, c, d], DOT) == a + [DOT] + b + [DOT] + c + [DOT] + d
  {
    hide Join;
    JoinCons(a, [b, c, d], DOT);
    JoinCons(b, [c, d], DOT);
    JoinCons(c, [d], DOT);
    OneJoined(d);
    assert [a] + [b, c, d] == [a, b, c, d] && [b] + [c, d] == [b, c, d] && [c] + [d] == [c, d];
    assert a + [DOT] + (b + [DOT] + (c + [DOT] + d)) == a + [DOT] + b + [DOT] + c + [DOT] + d;
  }

  lemma OneJoined(d: seq<Byte>)
    ensures Join([d], DOT) == d
  {
  }

  /** Every address printed in full and read back is the same address. */
  lemma RoundTrip(address: Word)
    ensures Parser.Meaning(Dotted(address)) == Some(address)
  {
    hide Join, Decimal, Parser.Spells, Parser.Meaning;
    var vals := BytesOf(address);
    forall k | 0 <= k < 4 ensures Parser.SpellsWord(DecimalBytes(vals)[k], vals[k]) {
      DecimalIsASpelling(vals[k]);
      assert Wrap(vals[k]) == vals[k];
    }
    hide Parser.SpellsWord, Parser.PartsApart;
    Parser.MeaningOfParts(DecimalBytes(vals), vals, []);
    assert Dotted(address) + [] == Dotted(address);
    SwapBytesTwice(address);
    assert Parser.Positional(vals) == SwapBytes(address);
    SwapBytesTwice(Parser.Meaning(Dotted(address)).value);
  }

  /** Dotted text needs at most 15 bytes, so a buffer of 16 always holds it with its terminator. */
  lemma FitsInSixteen(address: Word)
    ensures |Dotted(address)| <= 15
  {
    var t := DecimalBytes(BytesOf(address));
    forall v: Byte ensures |Decimal(v)| <= 3 {
      assert v >= 10 ==> |Decimal(v)| == |Decimal(v / 10)| + 1;
      assert v >= 100 ==> |Decimal(v / 10)| == |Decimal(v / 100)| + 1;
    }
    assert |Join(t[3..], DOT)| <= 3;
    assert t[2..][1..] == t[3..] && |Join(t[2..], DOT)| <= 7;
    assert t[1..][1..] == t[2..] && |Join(t[1..], DOT)| <= 11;
  }
}
