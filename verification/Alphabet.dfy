/** The characters the address codec knows, written out, and that the case of A to F makes no difference to it. */
module Alphabet {
  import opened Words
  import opened Text
  import V4 = Ipv4Parser
  import V6 = Ipv6Parser

  const UPPER_DIGITS := "0123456789ABCDEF"
  const LOWER_DIGITS := "0123456789abcdef"
  const OTHER_LETTERS := "ghijklmnopqrstuvwxyz"

  /** The k-th printed digit is worth k. */
  lemma UpperDigit(k: nat)
    requires k < 16
    ensures var c := UPPER_DIGITS[k] as int;
            IsHexaDigit(c) && DigitValue(c) == k && ToDecimalChar(k) == c && (IsDigit(c) <==> k < 10)
  {
    var s := UPPER_DIGITS;
    assert s[0] == '0' && s[1] == '1' && s[2] == '2' && s[3] == '3' && s[4] == '4' && s[5] == '5' && s[6] == '6';
    assert s[7] == '7' && s[8] == '8' && s[9] == '9' && s[10] == 'A' && s[11] == 'B' && s[12] == 'C';
    assert s[13] == 'D' && s[14] == 'E' && s[15] == 'F';
  }

  /** So is the k-th digit with letters in lower case. */
  lemma LowerDigit(k: nat)
    requires k < 16
    ensures var c := LOWER_DIGITS[k] as int; IsHexaDigit(c) && DigitValue(c) == k && (IsDigit(c) <==> k < 10)
  {
    var s := LOWER_DIGITS;
    assert s[0] == '0' && s[1] == '1' && s[2] == '2' && s[3] == '3' && s[4] == '4' && s[5] == '5' && s[6] == '6';
    assert s[7] == '7' && s[8] == '8' && s[9] == '9' && s[10] == 'a' && s[11] == 'b' && s[12] == 'c';
    assert s[13] == 'd' && s[14] == 'e' && s[15] == 'f';
  }

  /** The k-th letter from g on is worth 16 + k. */
  lemma OtherLetter(k: nat)
    requires k < 20
    ensures var c := OTHER_LETTERS[k] as int; IsHexaDigit(c) && DigitValue(c) == 16 + k && !IsDigit(c)
  {
    var s := OTHER_LETTERS;
    assert s[0] == 'g' && s[1] == 'h' && s[2] == 'i' && s[3] == 'j' && s[4] == 'k' && s[5] == 'l' && s[6] == 'm';
    assert s[7] == 'n' && s[8] == 'o' && s[9] == 'p' && s[10] == 'q' && s[11] == 'r' && s[12] == 's';
    assert s[13] == 't' && s[14] == 'u' && s[15] == 'v' && s[16] == 'w' && s[17] == 'x' && s[18] == 'y';
    assert s[19] == 'z';
  }

  /** No other character is a digit. */
  lemma OnlyTheseDigits(c: Byte)
    requires IsHexaDigit(c)
    ensures var k := DigitValue(c);
            if k < 16 then c == UPPER_DIGITS[k] as int || c == LOWER_DIGITS[k] as int
            else c == OTHER_LETTERS[k - 16] as int
  {
    var k := DigitValue(c);
    if k >= 16 {
      OtherLetterIs(k - 16);
    } else if c <= 70 {
      UpperDigitIs(k);
    } else {
      LowerLetterIs(k);
    }
  }

  lemma UpperDigitIs(k: nat)
    requires k < 16
    ensures UPPER_DIGITS[k] as int == if k < 10 then '0' as int + k else 'A' as int + k - 10
  {
    hide DigitValue;
    UpperDigit(k);
  }

  lemma LowerLetterIs(k: nat)
    requires 10 <= k < 16
    ensures LOWER_DIGITS[k] as int == 'a' as int + k - 10
  {
    var s := LOWER_DIGITS;
    assert s[10] == 'a' && s[11] == 'b' && s[12] == 'c' && s[13] == 'd' && s[14] == 'e' && s[15] == 'f';
  }

  lemma OtherLetterIs(k: nat)
    requires k < 20
    ensures OTHER_LETTERS[k] as int == 'g' as int + k
  {
    OtherLetter(k);
  }

  /** The other characters that mean something: separators, the hexadecimal prefix, and white space. */
  lemma Marks(c: Byte)
    ensures c == DOT <==> c == '.' as int
    ensures c == COLON <==> c == ':' as int
    ensures c == ZERO <==> c == '0' as int
    ensures V4.IsX(c) <==> c == 'x' as int || c == 'X' as int
    ensures IsSpace(c) <==> c in {' ' as int, '\t' as int, '\n' as int, 11, 12, '\r' as int}
  {
  }

  /** A dotted text ends at the terminator, which may stand in the middle of the bytes, or at white space. */
  lemma EndMarks(rest: seq<Byte>)
    ensures V4.Ends(rest) <==>
              rest == [] || rest[0] in {0, ' ' as int, '\t' as int, '\n' as int, 11, 12, '\r' as int}
  {
  }

  // ---------- case ----------

  /** The same character, but for the case of A to F. */
  predicate Alike(c: Byte, d: Byte) {
    c == d || ('A' as int <= c <= 'F' as int && d == c + 32) || ('A' as int <= d <= 'F' as int && c == d + 32)
  }

  predicate SameButCase(s: seq<Byte>, t: seq<Byte>) {
    |s| == |t| && forall k :: 0 <= k < |s| ==> Alike(s[k], t[k])
  }

  lemma AlikeMeansTheSame(c: Byte, d: Byte)
    requires Alike(c, d)
    ensures IsDigit(c) <==> IsDigit(d)
    ensures IsHexaDigit(c) <==> IsHexaDigit(d)
    ensures IsHexaDigit(c) ==> DigitValue(c) == DigitValue(d)
    ensures !IsHexaDigit(c) || IsDigit(c) ==> c == d
    ensures V4.IsX(c) <==> V4.IsX(d)
  {
  }

  lemma SameTail(s: seq<Byte>, t: seq<Byte>, n: nat)
    requires SameButCase(s, t) && n <= |s|
    ensures SameButCase(s[n..], t[n..])
  {
    hide Alike;
    forall k | 0 <= k < |s| - n ensures Alike(s[n..][k], t[n..][k]) {
      assert Alike(s[n + k], t[n + k]);
    }
  }

  lemma {:induction false} SameDigits(s: seq<Byte>, t: seq<Byte>, base: nat, val: Word)
    requires SameButCase(s, t) && V4.IsBase(base)
    ensures var m, n := V4.ReadDigits(s, base, val), V4.ReadDigits(t, base, val);
            m.value == n.value && SameButCase(m.rest, n.rest)
    decreases |s|
  {
    hide Alike, Or, Shl, Wrap;
    if s != [] {
      AlikeMeansTheSame(s[0], t[0]);
      SameTail(s, t, 1);
      if IsDigit(s[0]) {
        SameDigits(s[1..], t[1..], base, Wrap(val * base + DigitValue(s[0])));
      } else if base == 16 && IsHexaDigit(s[0]) {
        SameDigits(s[1..], t[1..], base, Or(Shl(val, 16), DigitValue(s[0])));
      }
    }
  }

  lemma SameNumber(s: seq<Byte>, t: seq<Byte>)
    requires SameButCase(s, t) && s != [] && IsDigit(s[0])
    ensures IsDigit(t[0])
    ensures var m, n := V4.ReadNumber(s), V4.ReadNumber(t); m.value == n.value && SameButCase(m.rest, n.rest)
  {
    hide V4.ReadDigits, Alike, IsDigit, IsHexaDigit;
    AlikeMeansTheSame(s[0], t[0]);
    SameTail(s, t, 1);
    if |s| > 1 {
      AlikeMeansTheSame(s[1], t[1]);
      SameTail(s, t, 2);
      SameDigits(s[2..], t[2..], 16, 0);
    }
    SameDigits(s, t, 10, 0);
    SameDigits(s[1..], t[1..], 8, 0);
  }

  lemma {:induction false} SameParts(s: seq<Byte>, t: seq<Byte>, parts: seq<Word>)
    requires SameButCase(s, t) && |parts| <= 3
    ensures V4.ParseFrom(s, parts) == V4.ParseFrom(t, parts)
    decreases |s|
  {
    hide V4.ReadNumber, V4.Combine, Alike;
    if s != [] {
      AlikeMeansTheSame(s[0], t[0]);
      if IsDigit(s[0]) {
        SameNumber(s, t);
        var m, n := V4.ReadNumber(s), V4.ReadNumber(t);
        if m.rest != [] {
          AlikeMeansTheSame(m.rest[0], n.rest[0]);
          SpaceIsNoDigit(m.rest[0]);
          SpaceIsNoDigit(n.rest[0]);
          SameTail(m.rest, n.rest, 1);
          if m.rest[0] == DOT && |parts| < 3 {
            SameParts(m.rest[1..], n.rest[1..], parts + [m.value]);
          }
        }
      }
    }
  }

  lemma SpaceIsNoDigit(c: Byte)
    ensures c == 0 || IsSpace(c) || c == DOT || c == COLON ==> !IsHexaDigit(c)
  {
  }

  /** Two dotted texts that differ only in the case of letters A to F mean the same. */
  lemma {:induction false} DottedCaseIsIgnored(s: seq<Byte>, t: seq<Byte>)
    requires SameButCase(s, t)
    ensures V4.Meaning(s) == V4.Meaning(t)
  {
    hide V4.ParseFrom;
    SameParts(s, t, []);
  }

  lemma {:induction false} SameColons(s: seq<Byte>, t: seq<Byte>, zeros: Word)
    requires SameButCase(s, t)
    ensures V6.CountColons(s, zeros) == V6.CountColons(t, zeros)
    decreases |s|
  {
    hide Alike, Wrap;
    if s != [] {
      AlikeMeansTheSame(s[0], t[0]);
      SpaceIsNoDigit(s[0]);
      SpaceIsNoDigit(t[0]);
      SameTail(s, t, 1);
      if s[0] == COLON {
        SameColons(s[1..], t[1..], Wrap(zeros - 1));
      } else if IsDigit(s[0]) {
        SameColons(s[1..], t[1..], zeros);
      }
    }
  }

  lemma {:induction false} SameScan(
      s: seq<Byte>, t: seq<Byte>, closed: seq<Word>, value: Word, zeros: Word, dotted: bool)
    requires SameButCase(s, t) && |closed| <= 7
    ensures V6.Scan(s, closed, value, zeros, dotted) == V6.Scan(t, closed, value, zeros, dotted)
    decreases |s|
  {
    hide V6.Scan, V6.Pack, V6.NoBlocks, V4.Meaning, Wrap, SwapBytes, Alike;
    assert s[0..] == s && t[0..] == t;
    if s != [] {
      AlikeMeansTheSame(s[0], t[0]);
      SpaceIsNoDigit(s[0]);
      SpaceIsNoDigit(t[0]);
      SameTail(s, t, 1);
    }
    if V6.ColonAt(s, 0) {
      var blocks := closed + [value];
      V6.ScanAtColon(s, 0, closed, value, zeros, dotted);
      V6.ScanAtColon(t, 0, closed, value, zeros, dotted);
      DottedCaseIsIgnored(s[1..], t[1..]);
      SameColonAt(s, t, 1);
      SameColonAt(s, t, 2);
      if V6.ColonAt(s, 1) {
        SameTail(s, t, 2);
        if |blocks| + zeros <= 7 {
          SameScan(s[2..], t[2..], blocks + V6.NoBlocks(zeros), 0, 0, dotted);
        }
      } else if |blocks| <= 7 {
        SameScan(s[1..], t[1..], blocks, 0, zeros, dotted);
      }
    } else {
      V6.ScanElsewhere(s, 0, closed, value, zeros, dotted);
      V6.ScanElsewhere(t, 0, closed, value, zeros, dotted);
      if s != [] && IsHexaDigit(s[0]) {
        SameScan(s[1..], t[1..], closed, Wrap(value * 16 + DigitValue(s[0])), zeros, dotted);
      }
    }
  }

  lemma SameColonAt(s: seq<Byte>, t: seq<Byte>, i: nat)
    requires SameButCase(s, t)
    ensures V6.ColonAt(s, i) == V6.ColonAt(t, i)
  {
    if i < |s| {
      AlikeMeansTheSame(s[i], t[i]);
      SpaceIsNoDigit(s[i]);
      SpaceIsNoDigit(t[i]);
    }
  }

  /** So do two colon texts, with a dotted address at the end or without. */
  lemma {:induction false} ColonCaseIsIgnored(s: seq<Byte>, t: seq<Byte>)
    requires SameButCase(s, t)
    ensures V6.Meaning(s) == V6.Meaning(t)
  {
    hide V6.CountColons, V6.Scan, V6.SwapAll;
    SameColons(s, t, 8);
    var count := V6.CountColons(s, 8);
    if count.Counted? {
      SameScan(s, t, [], 0, count.zeros, count.dotted);
    }
  }
}
