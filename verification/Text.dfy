/** Character classes of the address codec and the reading of digit groups. */
module Text {
  import opened Words

  datatype Option<+T> = None | Some(value: T)

  const DOT: Byte := 46
  const COLON: Byte := 58
  const ZERO: Byte := 48

  predicate IsDigit(c: Byte) {
    48 <= c <= 57
  }

  predicate IsLower(c: Byte) {
    97 <= c <= 122
  }

  /** As the source has it: upper case stops at F, lower case runs on to z. */
  predicate IsHexaDigit(c: Byte) {
    IsDigit(c) || IsLower(c) || 65 <= c <= 70
  }

  predicate IsSpace(c: Byte) {
    c == 32 || c == 12 || c == 10 || c == 13 || c == 9 || c == 11
  }

  /** 0..15 for the hexadecimal digits proper, 16..35 for g..z. */
  function DigitValue(c: Byte): (d: nat)
    requires IsHexaDigit(c)
    ensures d < 36
  {
    if IsDigit(c) then c - 48 else if IsLower(c) then c - 97 + 10 else c - 65 + 10
  }

  function ToDecimalChar(d: nat): (c: Byte)
    requires d < 16
    ensures IsHexaDigit(c) && DigitValue(c) == d && (IsDigit(c) <==> d < 10)
  {
    if d < 10 then 48 + d else 65 + d - 10
  }

  /** The groups written one after the other with a separator between neighbours. */
  function Join(groups: seq<seq<Byte>>, separator: Byte): seq<Byte>
    requires |groups| > 0
  {
    if |groups| == 1 then groups[0] else groups[0] + [separator] + Join(groups[1..], separator)
  }

  lemma JoinCons(first: seq<Byte>, groups: seq<seq<Byte>>, separator: Byte)
    requires |groups| > 0
    ensures Join([first] + groups, separator) == first + [separator] + Join(groups, separator)
  {
    assert ([first] + groups)[1..] == groups;
  }

  lemma JoinFrom(groups: seq<seq<Byte>>, separator: Byte, n: nat)
    requires n < |groups|
    ensures n + 1 == |groups| ==> Join(groups[n..], separator) == groups[n]
    ensures n + 1 < |groups| ==>
              Join(groups[n..], separator) == groups[n] + [separator] + Join(groups[n + 1..], separator)
  {
    assert groups[n..][0] == groups[n] && groups[n..][1..] == groups[n + 1..];
  }

  predicate AllHexa(s: seq<Byte>) {
    forall k :: 0 <= k < |s| ==> IsHexaDigit(s[k])
  }

  /** The number a digit string stands for in a base: exact, most significant digit first. */
  function Eval(digits: seq<Byte>, base: nat): nat
    requires AllHexa(digits)
  {
    if digits == [] then 0
    else Eval(digits[..|digits| - 1], base) * base + DigitValue(digits[|digits| - 1])
  }
}
