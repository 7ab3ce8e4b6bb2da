/** Unsigned bytes and 32-bit words as bounded naturals: every wrap-around is written out. */
module Words {

  type Byte = n: nat | n < 0x100
  type Word = n: nat | n < 0x1_0000_0000

  /** What a 32-bit unsigned variable keeps of an exact result. */
  function Wrap(n: int): Word {
    n % 0x1_0000_0000
  }

  /** Shift left: `scale` is the power of two shifted by. */
  function Shl(w: int, scale: int): Word {
    Wrap(w * scale)
  }

  lemma WrapPeriod(q: int, y: int)
    ensures Wrap(q * 0x1_0000_0000 + y) == Wrap(y)
  {
  }

  lemma WrapSmall(w: Word)
    ensures Wrap(w) == w
  {
  }

  lemma WrapMinus(z: int, n: int)
    ensures Wrap(Wrap(z) - n) == Wrap(z - n)
  {
  }

  /** Wrapping an intermediate result does not change the wrapped end result. */
  lemma WrapMulAdd(x: nat, b: nat, d: int)
    ensures Wrap(Wrap(x) * b + d) == Wrap(x * b + d)
  {
    var q := x / 0x1_0000_0000;
    assert x * b == (q * b) * 0x1_0000_0000 + Wrap(x) * b by {
      assert x == q * 0x1_0000_0000 + Wrap(x);
    }
    WrapPeriod(q * b, Wrap(x) * b + d);
  }

  function Pow2(k: nat): (p: nat)
    ensures p > 0
  {
    if k == 0 then 1 else 2 * Pow2(k - 1)
  }

  ghost predicate PowerOfTwo(p: nat) {
    exists k :: Pow2(k) == p
  }

  lemma {:induction false} Pow2Adds(j: nat, k: nat)
    ensures Pow2(j + k) == Pow2(j) * Pow2(k)
  {
    if j != 0 {
      Pow2Adds(j - 1, k);
    }
  }

  lemma PowerTimes(p: nat, q: nat)
    requires PowerOfTwo(p) && PowerOfTwo(q)
    ensures PowerOfTwo(p * q)
  {
    var j :| Pow2(j) == p;
    var k :| Pow2(k) == q;
    Pow2Adds(j, k);
  }

  lemma Powers()
    ensures PowerOfTwo(0x10) && PowerOfTwo(0x100) && PowerOfTwo(0x1_0000)
    ensures PowerOfTwo(0x100_0000) && PowerOfTwo(0x1_0000_0000)
  {
    assert Pow2(4) == 0x10;
    PowerTimes(0x10, 0x10);
    PowerTimes(0x100, 0x100);
    PowerTimes(0x1_0000, 0x100);
    PowerTimes(0x1_0000, 0x1_0000);
  }

  /** The `|` operator, bit by bit. */
  function BitOr(a: nat, b: nat): nat
    decreases a
  {
    if a == 0 then b
    else if b == 0 then a
    else 2 * BitOr(a / 2, b / 2) + (if a % 2 == 1 || b % 2 == 1 then 1 else 0)
  }

  lemma {:induction false} BitOrBound(a: nat, b: nat, k: nat)
    requires a < Pow2(k) && b < Pow2(k)
    ensures BitOr(a, b) < Pow2(k)
  {
    if a != 0 && b != 0 {
      BitOrBound(a / 2, b / 2, k - 1);
    }
  }

  lemma {:induction false} BitOrCommutes(a: nat, b: nat)
    ensures BitOr(a, b) == BitOr(b, a)
    decreases a
  {
    if a != 0 && b != 0 {
      BitOrCommutes(a / 2, b / 2);
    }
  }

  /** Pieces that share no bit: `|` is addition. */
  lemma {:induction false} BitOrDisjoint(high: nat, low: nat, k: nat)
    requires low < Pow2(k)
    ensures BitOr(high * Pow2(k), low) == high * Pow2(k) + low
    decreases k
  {
    if k == 0 || high == 0 || low == 0 {
    } else {
      assert high * Pow2(k) == 2 * (high * Pow2(k - 1));
      BitOrDisjoint(high, low / 2, k - 1);
    }
  }

  /** The bits two numbers share. */
  function BitAnd(a: nat, b: nat): nat
    decreases a
  {
    if a == 0 || b == 0 then 0
    else 2 * BitAnd(a / 2, b / 2) + (if a % 2 == 1 && b % 2 == 1 then 1 else 0)
  }

  /** `|` falls short of the sum by the bits shared. */
  lemma {:induction false} OrAndSum(a: nat, b: nat)
    ensures BitOr(a, b) + BitAnd(a, b) == a + b
    decreases a
  {
    if a != 0 && b != 0 {
      OrAndSum(a / 2, b / 2);
    }
  }

  function Or(a: Word, b: Word): Word {
    Powers();
    var k :| Pow2(k) == 0x1_0000_0000;
    BitOrBound(a, b, k);
    BitOr(a, b)
  }

  /** `|` of a multiple of a power of two with something below that power, either way round. */
  lemma OrAdds(high: nat, low: nat, p: nat, top: nat)
    requires PowerOfTwo(p) && low < p && top == high * p && top + low < 0x1_0000_0000
    ensures Or(top, low) == top + low && Or(low, top) == top + low
  {
    var k :| Pow2(k) == p;
    BitOrDisjoint(high, low, k);
    BitOrCommutes(low, top);
  }

  lemma OrAtMost(a: Word, b: Word)
    ensures Or(a, b) <= a + b && Or(a, b) == Or(b, a)
    ensures Or(a, b) == a + b <==> BitAnd(a, b) == 0
  {
    OrAndSum(a, b);
    BitOrCommutes(a, b);
    hide BitOr, BitAnd;
  }

  lemma ShlAtMost(w: Word, scale: nat)
    ensures Shl(w, scale) <= w * scale
    ensures Shl(w, scale) == w * scale <==> w * scale < 0x1_0000_0000
  {
    assert w * scale >= 0;
  }

  lemma OrHalves(high: Word, low: Word)
    requires high < 0x1_0000 && low < 0x1_0000
    ensures Or(Shl(high, 0x1_0000), low) == high * 0x1_0000 + low
  {
    hide BitOr;
    Powers();
    OrAdds(high, low, 0x1_0000, high * 0x1_0000);
  }

  lemma NibbleUp(val: Word, d: nat)
    requires d < 16
    ensures var high := val % 0x1000_0000; Shl(val, 16) == high * 16 && Wrap(val * 16 + d) == high * 16 + d
  {
  }

  lemma OrNibble(val: Word, d: nat)
    requires d < 16
    ensures Or(Shl(val, 16), d) == Wrap(val * 16 + d)
  {
    hide BitOr, Wrap, Shl, Or;
    NibbleUp(val, d);
    Powers();
    OrAdds(val % 0x1000_0000, d, 16, val % 0x1000_0000 * 16);
  }

  /** The word whose bytes are, lowest first, b0 b1 b2 b3. */
  function FromBytes(b0: Byte, b1: Byte, b2: Byte, b3: Byte): Word {
    b0 + 0x100 * b1 + 0x1_0000 * b2 + 0x100_0000 * b3
  }

  /** Byte k (0 is the lowest) of a word. */
  function ByteOf(w: Word, k: nat): Byte
    requires k < 4
  {
    match k
    case 0 => w % 0x100
    case 1 => (w / 0x100) % 0x100
    case 2 => (w / 0x100 / 0x100) % 0x100
    case 3 => w / 0x100 / 0x100 / 0x100
  }

  lemma BytesOfFromBytes(b0: Byte, b1: Byte, b2: Byte, b3: Byte)
    ensures var w := FromBytes(b0, b1, b2, b3);
            ByteOf(w, 0) == b0 && ByteOf(w, 1) == b1 && ByteOf(w, 2) == b2 && ByteOf(w, 3) == b3
  {
    var w := FromBytes(b0, b1, b2, b3);
    var w1 := b1 + 0x100 * b2 + 0x1_0000 * b3;
    assert w == b0 + 0x100 * w1;
    assert w / 0x100 == w1 && w1 / 0x100 == b2 + 0x100 * b3;
  }

  lemma FromBytesOfBytes(w: Word)
    ensures FromBytes(ByteOf(w, 0), ByteOf(w, 1), ByteOf(w, 2), ByteOf(w, 3)) == w
  {
  }

  /** HostToNetworkLong: the four bytes in the opposite order (masked pieces never overlap). */
  function SwapBytes(w: Word): Word {
    FromBytes(ByteOf(w, 3), ByteOf(w, 2), ByteOf(w, 1), ByteOf(w, 0))
  }

  /** The lowest byte becomes the highest, and so on. */
  lemma SwapBytesReverses(b0: Byte, b1: Byte, b2: Byte, b3: Byte)
    ensures SwapBytes(b0 + 0x100 * b1 + 0x1_0000 * b2 + 0x100_0000 * b3)
         == b3 + 0x100 * b2 + 0x1_0000 * b1 + 0x100_0000 * b0
  {
    BytesOfFromBytes(b0, b1, b2, b3);
  }

  lemma SwapBytesTwice(w: Word)
    ensures SwapBytes(SwapBytes(w)) == w
  {
    BytesOfFromBytes(ByteOf(w, 3), ByteOf(w, 2), ByteOf(w, 1), ByteOf(w, 0));
    FromBytesOfBytes(w);
  }
}
