/** DHCP options as type-length-value bytes (section 2 of RFC 2132): the scanner, and the reply that is written. */
module DhcpOptions {
  import opened Words
  import opened Text

  const PAD: Byte := 0
  const SUBNET_MASK: Byte := 1
  const ROUTER: Byte := 3
  const LEASE_TIME: Byte := 51
  const MESSAGE_TYPE: Byte := 53
  const SERVER_IDENTIFIER: Byte := 54
  const END: Byte := 255

  const OFFER: Byte := 2
  const ACK: Byte := 5
  const NAK: Byte := 6

  // ---------- the scanner ----------

  /** Where the data of the option found starts, and the length it announces. */
  datatype Found = Found(position: nat, length: nat)

  function Moved(f: Option<Found>, offset: nat): Option<Found> {
    match f
    case None => None
    case Some(g) => Some(Found(g.position + offset, g.length))
  }

  /** Where the scan of the bytes finds a code, counted from their start. */
  function Find(options: seq<Byte>, code: Byte): Option<Found>
    decreases |options|
  {
    if options == [] || options[0] == END then None
    else if options[0] == PAD then Moved(Find(options[1..], code), 1)
    else if |options| == 1 then None
    else if options[0] == code then Some(Found(2, options[1]))
    else
      var length: nat := options[1];
      if 2 + length > |options| then None else Moved(Find(options[2 + length..], code), 2 + length)
  }

  /** The scan at a position, case by case. */
  lemma FindAt(options: seq<Byte>, code: Byte, at: nat)
    requires at <= |options|
    ensures var r := Find(options[at..], code);
            if at == |options| || options[at] == END then r == None
            else if options[at] == PAD then r == Moved(Find(options[at + 1..], code), 1)
            else if at + 1 == |options| then r == None
            else if options[at] == code then r == Some(Found(2, options[at + 1]))
            else
              var length: nat := options[at + 1];
              if at + 2 + length > |options| then r == None
              else r == Moved(Find(options[at + 2 + length..], code), 2 + length)
  {
    var rest := options[at..];
    hide Moved;
    if |rest| >= 2 {
      var length: nat := options[at + 1];
      assert rest[1] == length && rest[1..] == options[at + 1..];
      if 2 + length <= |rest| {
        assert rest[2 + length..] == options[at + 2 + length..];
      }
    } else if |rest| == 1 {
      assert rest[1..] == options[at + 1..];
    }
  }

  /**
   * findOption. It ends on every input, and the length byte of an option found is inside the input; its data may
   * run past the end, as the source does not compare the announced length with what is left.
   */
  method FindOption(options: seq<Byte>, code: Byte) returns (found: Option<Found>)
    ensures found == Find(options, code)
  {
    hide Find;
    found := None;
    assert options[0..] == options;
    FindAt(options, code, |options|);
    var isEndFound := false;
    var current: nat := 0;
    while current < |options| && !isEndFound && found.None?
      invariant found.Some? ==> found == Find(options, code)
      invariant found.None? && !isEndFound && current <= |options| ==>
                  Find(options, code) == Moved(Find(options[current..], code), current)
      invariant found.None? && (isEndFound || current > |options|) ==> Find(options, code) == None
      decreases |options| - current, !isEndFound, found.None?
    {
      var option := options[current];
      FindAt(options, code, current);
      if option == PAD {
        current := current + 1;
      } else if option == END {
        isEndFound := true;
      } else {
        current := current + 1;
        if current < |options| {
          var length := options[current];
          current := current + 1;
          if code == option {
            found := Some(Found(current, length));
          }
          current := current + length;
        }
      }
    }
  }

  // ---------- what it finds ----------

  /** A run of pads, or an option with its data. */
  datatype Item = Pads(count: nat) | Opt(code: Byte, data: seq<Byte>)

  predicate ItemOk(item: Item) {
    item.Opt? ==> item.code != PAD && item.code != END && |item.data| < 0x100
  }

  predicate ItemsOk(items: seq<Item>) {
    forall k :: 0 <= k < |items| ==> ItemOk(items[k])
  }

  function Zeros(n: nat): (z: seq<Byte>)
    ensures |z| == n && forall k :: 0 <= k < n ==> z[k] == PAD
  {
    seq(n, _ => PAD)
  }

  function ItemBytes(item: Item): seq<Byte>
    requires ItemOk(item)
  {
    match item
    case Pads(n) => Zeros(n)
    case Opt(code, data) => [code, |data|] + data
  }

  function Encode(items: seq<Item>): seq<Byte>
    requires ItemsOk(items)
  {
    if items == [] then [] else ItemBytes(items[0]) + Encode(items[1..])
  }

  predicate HasCode(item: Item, code: Byte) {
    item.Opt? && item.code == code
  }

  /** The first option with a code; the number of items if there is none. */
  function FirstIndex(items: seq<Item>, code: Byte): (k: nat)
    ensures k <= |items| && (k < |items| ==> HasCode(items[k], code))
    ensures forall j :: 0 <= j < k ==> !HasCode(items[j], code)
  {
    if items == [] || HasCode(items[0], code) then 0 else 1 + FirstIndex(items[1..], code)
  }

  /** Where the k-th item begins. */
  function Offset(items: seq<Item>, k: nat): nat
    requires ItemsOk(items) && k <= |items|
  {
    if k == 0 then 0 else |ItemBytes(items[0])| + Offset(items[1..], k - 1)
  }

  lemma {:induction false} SkipPads(n: nat, rest: seq<Byte>, code: Byte)
    ensures Find(Zeros(n) + rest, code) == Moved(Find(rest, code), n)
  {
    var s := Zeros(n) + rest;
    if n == 0 {
      assert s == rest;
    } else {
      assert s[0] == PAD && s[1..] == Zeros(n - 1) + rest;
      hide Zeros;
      SkipPads(n - 1, rest, code);
    }
  }

  lemma ScanOption(option: Item, rest: seq<Byte>, code: Byte)
    requires option.Opt? && ItemOk(option)
    ensures Find(ItemBytes(option) + rest, code) ==
            if option.code == code then Some(Found(2, |option.data|))
            else Moved(Find(rest, code), 2 + |option.data|)
  {
    var s, n := ItemBytes(option) + rest, 2 + |option.data|;
    assert s[0] == option.code && s[1] == |option.data| && s[n..] == rest;
  }

  lemma ScanItem(item: Item, tail: seq<Byte>, code: Byte)
    requires ItemOk(item) && code != PAD
    ensures Find(ItemBytes(item) + tail, code) ==
            if HasCode(item, code) then Some(Found(2, |item.data|))
            else Moved(Find(tail, code), |ItemBytes(item)|)
  {
    hide Find, Moved;
    match item
    case Pads(n) => SkipPads(n, tail, code);
    case Opt(_, _) => ScanOption(item, tail, code);
  }

  lemma FirstIndexStep(items: seq<Item>, code: Byte)
    requires ItemsOk(items) && items != []
    ensures ItemsOk(items[1..])
    ensures var k, t := FirstIndex(items, code), FirstIndex(items[1..], code);
            if HasCode(items[0], code) then k == 0 && Offset(items, k) == 0
            else
              && k == t + 1 && Offset(items, k) == |ItemBytes(items[0])| + Offset(items[1..], t)
              && (t < |items[1..]| ==> items[k] == items[1..][t])
  {
    hide ItemBytes;
  }

  function Closed(items: seq<Item>, rest: seq<Byte>): seq<Byte>
    requires ItemsOk(items)
  {
    Encode(items) + [END] + rest
  }

  lemma EncodeStep(items: seq<Item>)
    requires ItemsOk(items) && items != []
    ensures ItemOk(items[0]) && ItemsOk(items[1..])
    ensures Encode(items) == ItemBytes(items[0]) + Encode(items[1..])
  {
  }

  lemma ClosedStep(items: seq<Item>, rest: seq<Byte>)
    requires ItemsOk(items) && items != []
    ensures ItemsOk(items[1..]) && Closed(items, rest) == ItemBytes(items[0]) + Closed(items[1..], rest)
  {
    hide ItemBytes, Encode, ItemsOk;
    EncodeStep(items);
  }

  lemma NothingFound(rest: seq<Byte>, code: Byte)
    ensures Find(Closed([], rest), code) == None && FirstIndex([], code) == 0
  {
    assert Closed([], rest)[0] == END;
  }

  /**
   * The scan is first match: over any options interleaved with pads, closed by END and followed by anything, it
   * gives the data position and length of the first option with the code, or nothing.
   */
  lemma {:induction false} FirstMatch(items: seq<Item>, rest: seq<Byte>, code: Byte)
    requires ItemsOk(items) && code != PAD && code != END
    ensures var k := FirstIndex(items, code);
            Find(Closed(items, rest), code) ==
            if k == |items| then None else Some(Found(Offset(items, k) + 2, |items[k].data|))
    decreases |items|
  {
    hide Closed, Find, ItemBytes, HasCode, FirstIndex, Offset, ItemsOk, ItemOk;
    if items == [] {
      NothingFound(rest, code);
    } else {
      ClosedStep(items, rest);
      FirstIndexStep(items, code);
      EncodeStep(items);
      FirstMatch(items[1..], rest, code);
      ScanItem(items[0], Closed(items[1..], rest), code);
    }
  }

  /** The bytes from a position on begin with the data. */
  predicate HasAt(bytes: seq<Byte>, p: nat, data: seq<Byte>) {
    p + |data| <= |bytes| && bytes[p..p + |data|] == data
  }

  lemma HasAfter(a: seq<Byte>, b: seq<Byte>, p: nat, data: seq<Byte>)
    requires HasAt(b, p, data)
    ensures HasAt(a + b, |a| + p, data)
  {
    assert (a + b)[|a| + p..|a| + p + |data|] == b[p..p + |data|];
  }

  lemma OptionBytes(option: Item, rest: seq<Byte>)
    requires option.Opt? && ItemOk(option)
    ensures HasAt(ItemBytes(option) + rest, 2, option.data)
  {
    var bytes := ItemBytes(option) + rest;
    assert bytes[2..2 + |option.data|] == option.data;
  }

  lemma OffsetStep(items: seq<Item>, k: nat)
    requires ItemsOk(items) && 0 < k < |items|
    ensures ItemsOk(items[1..]) && items[k] == items[1..][k - 1]
    ensures Offset(items, k) == |ItemBytes(items[0])| + Offset(items[1..], k - 1)
  {
    hide ItemBytes;
  }

  lemma DataOfFirst(items: seq<Item>)
    requires ItemsOk(items) && items != [] && items[0].Opt?
    ensures Offset(items, 0) == 0 && HasAt(Encode(items), 2, items[0].data)
  {
    EncodeStep(items);
    hide ItemBytes, Encode, ItemsOk, HasAt;
    OptionBytes(items[0], Encode(items[1..]));
  }

  /** At that position the bytes are the option's data. */
  lemma {:induction false} DataAt(items: seq<Item>, k: nat)
    requires ItemsOk(items) && k < |items| && items[k].Opt?
    ensures HasAt(Encode(items), Offset(items, k) + 2, items[k].data)
  {
    if k == 0 {
      DataOfFirst(items);
    } else {
      EncodeStep(items);
      OffsetStep(items, k);
      hide ItemBytes, Encode, ItemOk, ItemsOk, Offset, HasAt;
      DataAt(items[1..], k - 1);
      HasAfter(ItemBytes(items[0]), Encode(items[1..]), Offset(items[1..], k - 1) + 2, items[k].data);
    }
  }

  // ---------- a list that is cut ----------

  lemma WithoutCode(items: seq<Item>, rest: seq<Byte>, code: Byte)
    requires ItemsOk(items) && items != [] && FirstIndex(items, code) == |items|
    ensures ItemOk(items[0]) && !HasCode(items[0], code)
    ensures ItemsOk(items[1..]) && FirstIndex(items[1..], code) == |items[1..]|
    ensures Encode(items) + rest == ItemBytes(items[0]) + (Encode(items[1..]) + rest)
    ensures |Encode(items)| == |ItemBytes(items[0])| + |Encode(items[1..])|
  {
    hide ItemBytes, Encode, ItemsOk, ItemOk, FirstIndex, HasCode, Offset;
    FirstIndexStep(items, code);
    EncodeStep(items);
  }

  lemma EncodeNone(rest: seq<Byte>)
    ensures Encode([]) == [] && [] + rest == rest
  {
  }

  /** Options without the code are passed over, whatever follows them. */
  lemma {:induction false} PassOver(items: seq<Item>, rest: seq<Byte>, code: Byte)
    requires ItemsOk(items) && code != PAD && FirstIndex(items, code) == |items|
    ensures Find(Encode(items) + rest, code) == Moved(Find(rest, code), |Encode(items)|)
    decreases |items|
  {
    hide Find, Encode, ItemBytes, HasCode, FirstIndex, ItemsOk, ItemOk;
    if items == [] {
      EncodeNone(rest);
    } else {
      WithoutCode(items, rest, code);
      PassOver(items[1..], rest, code);
      ScanItem(items[0], Encode(items[1..]) + rest, code);
    }
  }

  /** An option is found whose data runs past the end. */
  predicate Overlong(options: seq<Byte>, code: Byte) {
    var f := Find(options, code);
    f.Some? && f.value.position + f.value.length > |options|
  }

  /** The bytes stop inside the data of the first option with the code. */
  predicate CutAt(options: seq<Byte>, code: Byte, items: seq<Item>, n: Byte, tail: seq<Byte>) {
    && ItemsOk(items) && FirstIndex(items, code) == |items|
    && options == Encode(items) + [code, n] + tail && |tail| < n
  }

  /** Nothing compares the length announced with what is left: such an option is found with all of it. */
  lemma CutIsFound(options: seq<Byte>, code: Byte, items: seq<Item>, n: Byte, tail: seq<Byte>)
    requires CutAt(options, code, items, n, tail) && code != PAD && code != END
    ensures Find(options, code) == Some(Found(|Encode(items)| + 2, n)) && Overlong(options, code)
  {
    hide Encode, FirstIndex;
    assert options == Encode(items) + ([code, n] + tail);
    PassOver(items, [code, n] + tail, code);
  }

  /** What the scan passes first is an item. */
  lemma SplitFirst(options: seq<Byte>, code: Byte) returns (item: Item, rest: seq<Byte>)
    requires Overlong(options, code) && (options[0] == PAD || options[0] != code)
    ensures ItemOk(item) && !HasCode(item, code) && options == ItemBytes(item) + rest
    ensures |rest| < |options| && Overlong(rest, code)
  {
    if options[0] == PAD {
      item, rest := Pads(1), options[1..];
      assert Zeros(1) == [PAD];
    } else {
      var size: nat := options[1];
      item, rest := Opt(options[0], options[2..2 + size]), options[2 + size..];
      assert ItemBytes(item) == options[..2 + size];
    }
  }

  lemma CutHere(options: seq<Byte>, code: Byte)
    requires Overlong(options, code) && options[0] != PAD && options[0] == code
    ensures CutAt(options, code, [], options[1], options[2..])
  {
    assert options == [] + [code, options[1]] + options[2..];
  }

  lemma CutLater(item: Item, rest: seq<Byte>, code: Byte, items: seq<Item>, n: Byte, tail: seq<Byte>)
    requires ItemOk(item) && !HasCode(item, code) && CutAt(rest, code, items, n, tail)
    ensures CutAt(ItemBytes(item) + rest, code, [item] + items, n, tail)
  {
    hide ItemBytes, Encode, FirstIndex, ItemsOk, ItemOk, HasCode;
    PutBefore(item, items, code);
    assert ItemBytes(item) + rest == (ItemBytes(item) + Encode(items)) + [code, n] + tail;
  }

  /** And only such a list makes the scan announce data that is not there. */
  lemma {:induction false} OverlongIsCut(options: seq<Byte>, code: Byte)
      returns (items: seq<Item>, n: Byte, tail: seq<Byte>)
    requires Overlong(options, code)
    ensures CutAt(options, code, items, n, tail)
    decreases |options|
  {
    if options[0] != PAD && options[0] == code {
      items, n, tail := [], options[1], options[2..];
      CutHere(options, code);
    } else {
      var item, rest := SplitFirst(options, code);
      hide Overlong, CutAt, ItemBytes, ItemOk, HasCode;
      items, n, tail := OverlongIsCut(rest, code);
      CutLater(item, rest, code, items, n, tail);
      items := [item] + items;
    }
  }

  lemma PutBefore(item: Item, items: seq<Item>, code: Byte)
    requires ItemOk(item) && ItemsOk(items) && !HasCode(item, code)
    ensures ItemsOk([item] + items) && Encode([item] + items) == ItemBytes(item) + Encode(items)
    ensures FirstIndex([item] + items, code) == 1 + FirstIndex(items, code)
  {
    assert ([item] + items)[1..] == items;
    hide ItemBytes;
  }

  // ---------- the reply ----------

  /** A 32-bit value, most significant byte first. */
  function BigEndian(w: Word): (bytes: seq<Byte>)
    ensures |bytes| == 4
  {
    [ByteOf(w, 3), ByteOf(w, 2), ByteOf(w, 1), ByteOf(w, 0)]
  }

  function MakeU32(bytes: seq<Byte>): Word
    requires |bytes| == 4
  {
    FromBytes(bytes[3], bytes[2], bytes[1], bytes[0])
  }

  lemma BigEndianRoundTrip(w: Word)
    ensures MakeU32(BigEndian(w)) == w
  {
    FromBytesOfBytes(w);
  }

  const LEASE_SECONDS: Word := 3600
  const REPLY_SIZE: nat := 32

  function Field(code: Byte, value: Word): (f: seq<Byte>)
    ensures |f| == 6
  {
    [code, 4] + BigEndian(value)
  }

  lemma FieldBytes(code: Byte, value: Word)
    ensures Field(code, value) == [code, 4, ByteOf(value, 3), ByteOf(value, 2), ByteOf(value, 1), ByteOf(value, 0)]
  {
  }

  /** A four-byte option over the next six of the zeros left. */
  method PutOption(reply: array<Byte>, at: nat, code: Byte, value: Word, ghost before: seq<Byte>, ghost left: nat)
    requires reply[..] == before + Zeros(left) && at == |before| && 6 <= left
    modifies reply
    ensures reply[..] == before + Field(code, value) + Zeros(left - 6)
  {
    hide ByteOf, Field, Zeros;
    ghost var was := reply[..];
    FieldBytes(code, value);
    reply[at] := code;
    reply[at + 1] := 4;
    reply[at + 2] := ByteOf(value, 3);
    reply[at + 3] := ByteOf(value, 2);
    reply[at + 4] := ByteOf(value, 1);
    reply[at + 5] := ByteOf(value, 0);
    assert was[..at] == before && was[at + 6..] == Zeros(left)[6..] == Zeros(left - 6);
    assert reply[..at] == was[..at] && reply[at + 6..] == was[at + 6..];
    assert reply[at..at + 6] == Field(code, value);
    assert reply[..] == reply[..at] + reply[at..at + 6] + reply[at + 6..];
  }

  const MAGIC_COOKIE: seq<Byte> := [99, 130, 83, 99]

  function LeaseAndMask(kind: Byte, mask: Word): (f: seq<Byte>)
    ensures |f| == 12
  {
    if kind == NAK then Zeros(12) else Field(LEASE_TIME, LEASE_SECONDS) + Field(SUBNET_MASK, mask)
  }

  /** The options of a reply after the magic cookie. */
  function ReplyOptions(kind: Byte, host: Word, mask: Word): seq<Byte> {
    [MESSAGE_TYPE, 1, kind] + LeaseAndMask(kind, mask) + Field(SERVER_IDENTIFIER, host) + Field(ROUTER, host) + [END]
  }

  method SetHead(reply: array<Byte>, kind: Byte)
    requires reply.Length == REPLY_SIZE && reply[..] == Zeros(REPLY_SIZE)
    modifies reply
    ensures reply[..] == MAGIC_COOKIE + [MESSAGE_TYPE, 1, kind] + Zeros(25)
  {
    reply[0], reply[1], reply[2], reply[3] := 99, 130, 83, 99;
    reply[4], reply[5], reply[6] := MESSAGE_TYPE, 1, kind;
  }

  lemma ZerosSplit(m: nat, n: nat)
    ensures Zeros(m + n) == Zeros(m) + Zeros(n)
  {
  }

  /** Lease time and mask, or zeros left in their place. */
  method SetLeaseAndMask(reply: array<Byte>, kind: Byte, mask: Word, ghost text: seq<Byte>)
    requires reply[..] == text + Zeros(25) && |text| == 7
    modifies reply
    ensures reply[..] == text + LeaseAndMask(kind, mask) + Zeros(13)
  {
    hide Field, Zeros;
    if kind != NAK {
      PutOption(reply, 7, LEASE_TIME, LEASE_SECONDS, text, 25);
      PutOption(reply, 13, SUBNET_MASK, mask, text + Field(LEASE_TIME, LEASE_SECONDS), 19);
      assert text + LeaseAndMask(kind, mask) == text + Field(LEASE_TIME, LEASE_SECONDS) + Field(SUBNET_MASK, mask);
    } else {
      ZerosSplit(12, 13);
      assert text + (Zeros(12) + Zeros(13)) == text + Zeros(12) + Zeros(13);
    }
  }

  /** setReplyOptions, into the zeroed option block of the reply. */
  method SetReplyOptions(reply: array<Byte>, kind: Byte, host: Word, mask: Word)
    requires reply.Length == REPLY_SIZE && reply[..] == Zeros(REPLY_SIZE)
    modifies reply
    ensures reply[..] == MAGIC_COOKIE + ReplyOptions(kind, host, mask)
  {
    hide Field, LeaseAndMask, Zeros;
    SetHead(reply, kind);
    ghost var text := MAGIC_COOKIE + [MESSAGE_TYPE, 1, kind];
    SetLeaseAndMask(reply, kind, mask, text);
    text := text + LeaseAndMask(kind, mask);
    PutOption(reply, 19, SERVER_IDENTIFIER, host, text, 13);
    text := text + Field(SERVER_IDENTIFIER, host);
    PutOption(reply, 25, ROUTER, host, text, 7);
    reply[31] := END;
    assert reply[..] == text + Field(ROUTER, host) + [END];
    assert text + Field(ROUTER, host) + [END] == MAGIC_COOKIE + ReplyOptions(kind, host, mask);
  }

  // ---------- the reply read back ----------

  /** The data of the first option with a code, as a client following the scan reads it. */
  function Read(options: seq<Byte>, code: Byte): Option<seq<Byte>> {
    match Find(options, code)
    case None => None
    case Some(f) =>
      if f.position + f.length <= |options| then Some(options[f.position..f.position + f.length]) else None
  }

  /** Reading an encoded list gives the data of the first item with the code. */
  lemma ReadItems(items: seq<Item>, rest: seq<Byte>, code: Byte)
    requires ItemsOk(items) && code != PAD && code != END
    ensures var k := FirstIndex(items, code);
            Read(Closed(items, rest), code) == if k == |items| then None else Some(items[k].data)
  {
    hide Find, Encode, FirstIndex, Offset, ItemsOk;
    FirstMatch(items, rest, code);
    var k := FirstIndex(items, code);
    if k < |items| {
      DataAt(items, k);
      var p, n := Offset(items, k) + 2, |items[k].data|;
      assert Closed(items, rest)[p..p + n] == Encode(items)[p..p + n];
    }
  }

  /** The same, with the place of the item known. */
  lemma ReadItem(items: seq<Item>, code: Byte, k: nat)
    requires ItemsOk(items) && code != PAD && code != END
    requires k <= |items| && (forall j :: 0 <= j < k ==> !HasCode(items[j], code))
    requires k < |items| ==> HasCode(items[k], code)
    ensures Read(Closed(items, []), code) == if k == |items| then None else Some(items[k].data)
  {
    hide Read, Closed, ItemsOk;
    ReadItems(items, [], code);
    assert FirstIndex(items, code) == k;
  }

  function Middle(kind: Byte, mask: Word): seq<Item> {
    if kind == NAK then [Pads(12)]
    else [Opt(LEASE_TIME, BigEndian(LEASE_SECONDS)), Opt(SUBNET_MASK, BigEndian(mask))]
  }

  function ReplyItems(kind: Byte, host: Word, mask: Word): (items: seq<Item>)
    ensures ItemsOk(items)
  {
    [Opt(MESSAGE_TYPE, [kind])] + Middle(kind, mask)
    + [Opt(SERVER_IDENTIFIER, BigEndian(host)), Opt(ROUTER, BigEndian(host))]
  }

  lemma EncodeConcat(a: seq<Item>, b: seq<Item>)
    requires ItemsOk(a) && ItemsOk(b)
    ensures ItemsOk(a + b) && Encode(a + b) == Encode(a) + Encode(b)
  {
    if a == [] {
      assert a + b == b;
    } else {
      assert (a + b)[1..] == a[1..] + b;
      EncodeConcat(a[1..], b);
    }
  }

  lemma EncodeOne(item: Item)
    requires ItemOk(item)
    ensures ItemsOk([item]) && Encode([item]) == ItemBytes(item)
  {
    assert [item][1..] == [];
  }

  lemma EncodeTwo(a: Item, b: Item)
    requires ItemOk(a) && ItemOk(b)
    ensures ItemsOk([a, b]) && Encode([a, b]) == ItemBytes(a) + ItemBytes(b)
  {
    EncodeOne(a);
    EncodeOne(b);
    EncodeConcat([a], [b]);
    assert [a] + [b] == [a, b];
  }

  /** The three items that depend on the kind of reply. */
  lemma MiddleBytes(kind: Byte, mask: Word)
    ensures var middle := Middle(kind, mask); ItemsOk(middle) && Encode(middle) == LeaseAndMask(kind, mask)
  {
    EncodeOne(Pads(12));
    EncodeTwo(Opt(LEASE_TIME, BigEndian(LEASE_SECONDS)), Opt(SUBNET_MASK, BigEndian(mask)));
    hide Encode, BigEndian, Zeros;
  }

  lemma ReplyIsClosed(kind: Byte, host: Word, mask: Word)
    ensures ReplyOptions(kind, host, mask) == Closed(ReplyItems(kind, host, mask), [])
  {
    var h, middle := Opt(MESSAGE_TYPE, [kind]), Middle(kind, mask);
    var s, r := Opt(SERVER_IDENTIFIER, BigEndian(host)), Opt(ROUTER, BigEndian(host));
    EncodeOne(h);
    MiddleBytes(kind, mask);
    EncodeTwo(s, r);
    hide Encode, BigEndian, Zeros, LeaseAndMask, Middle, ItemsOk;
    EncodeConcat([h] + middle, [s, r]);
    EncodeConcat([h], middle);
    assert ItemBytes(h) == [MESSAGE_TYPE, 1, kind];
  }

  /**
   * Every reply reads back: message type, server identifier and router always; lease time and mask exactly when
   * the reply is not a NAK, whose zero bytes pass for pads.
   */
  lemma ReplyReadsBack(kind: Byte, host: Word, mask: Word)
    ensures var options := ReplyOptions(kind, host, mask);
            && Read(options, MESSAGE_TYPE) == Some([kind])
            && Read(options, SERVER_IDENTIFIER) == Some(BigEndian(host))
            && Read(options, ROUTER) == Some(BigEndian(host))
            && Read(options, LEASE_TIME) == (if kind == NAK then None else Some(BigEndian(LEASE_SECONDS)))
            && Read(options, SUBNET_MASK) == (if kind == NAK then None else Some(BigEndian(mask)))
  {
    var items := ReplyItems(kind, host, mask);
    ReplyIsClosed(kind, host, mask);
    hide Read, ReplyOptions, Closed, BigEndian;
    var n := if kind == NAK then 2 else 3;
    ReadItem(items, MESSAGE_TYPE, 0);
    ReadItem(items, SERVER_IDENTIFIER, n);
    ReadItem(items, ROUTER, n + 1);
    ReadItem(items, LEASE_TIME, if kind == NAK then 4 else 1);
    ReadItem(items, SUBNET_MASK, if kind == NAK then 4 else 2);
  }
}
