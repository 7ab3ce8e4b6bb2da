/** What the DHCP server answers, written out: to clients it knows and to new ones, and what a packet says to it. */
module DhcpLaws {
  import opened Words
  import opened Text
  import opened DhcpOptions
  import opened DhcpBindings
  import opened DhcpServer

  // ---------- clients that have been granted an address ----------

  /** An offer (2) or an acknowledgement (5) of the address. */
  predicate Granted(answer: Answer, a: Word) {
    answer == Answer(2, a) || answer == Answer(5, a)
  }

  /** A REQUEST (3) selects this server, or names the address itself in one of its two fields. */
  predicate Wants(m: Message, host: Word, a: Word) {
    if m.server == Some(host) then true
    else (m.ciaddr == a || m.requested == a) && !(m.requested == 0xFFFF_FFFF && m.ciaddr == 0)
  }

  /**
   * Once a client has been granted an address, each of its later DISCOVERs (1) is offered that address, each of its
   * REQUESTs (3) that selects this server or names the address, as a renewal does, is acknowledged with it, every
   * other REQUEST is refused (6), and its other messages are not answered.
   */
  lemma {:induction false} ClientIsAnswered(
      cfg: Config, table: seq<Entry>, messages: seq<Message>, i: nat, j: nat, a: Word)
    requires TableOk(table) && i < j < |Answers(cfg, table, messages)|
    requires messages[i].client == messages[j].client != [] && Granted(Answers(cfg, table, messages)[i], a)
    ensures var m, answer := messages[j], Answers(cfg, table, messages)[j];
            && (m.kind == 1 ==> answer == Answer(2, a))
            && (m.kind == 3 ==> answer == if Wants(m, cfg.host, a) then Answer(5, a) else Answer(6, 0))
            && (m.kind != 1 && m.kind != 3 ==> answer == Silent)
  {
    hide Answers, TableOk;
    GrantIsHonoured(cfg, table, messages, i, j, a);
  }

  // ---------- clients that have not ----------

  /** No entry is the client's; a client that names itself by no bytes has none. */
  predicate IsNew(table: seq<Entry>, client: seq<Byte>) {
    client == [] || forall k :: 0 <= k < |table| ==> table[k].client != client
  }

  predicate InUse(table: seq<Entry>, address: Word) {
    exists k :: 0 <= k < |table| && table[k].ipAddress == address
  }

  lemma NewIsNotFound(table: seq<Entry>, client: seq<Byte>)
    ensures IsNew(table, client) <==> Lookup(table, client) == None
  {
    if Lookup(table, client).Some? {
      assert table[IndexOf(table, client)].client == client;
    }
  }

  lemma InUseIsTaken(table: seq<Entry>, address: Word)
    ensures Taken(table, address) <==> InUse(table, address)
  {
    if InUse(table, address) {
      var k :| 0 <= k < |table| && table[k].ipAddress == address;
      assert CheckIpAddress(table[k], address);
    }
  }

  /**
   * A new client is offered the lowest address, and recorded with it, if and only if that is free, the range does
   * not end at 255.255.255.255 and fewer than five clients are stored. Otherwise nothing is recorded, and the server
   * either stays silent, with the table full or the range exhausted, or hangs. A REQUEST of a new client is refused.
   */
  lemma NewClientIsAnswered(cfg: Config, table: seq<Entry>, m: Message)
    requires IsNew(table, m.client)
    ensures var answer, more := Respond(cfg, table, m), Recorded(cfg, table, m);
            && (m.kind == 1 ==>
                  if cfg.maximum == 0xFFFF_FFFF then answer == Endless && more == table
                  else if InUse(table, cfg.minimum) then
                    more == table && answer == if cfg.minimum == cfg.maximum then Silent else Endless
                  else if |table| < 5 then
                    more == table + [Entry(cfg.minimum, m.client)] && answer == Answer(2, cfg.minimum)
                  else more == table && answer == Silent)
            && (m.kind == 3 ==> answer == Answer(6, 0) && more == table)
            && (m.kind != 1 && m.kind != 3 ==> answer == Silent && more == table)
  {
    NewIsNotFound(table, m.client);
    InUseIsTaken(table, cfg.minimum);
    hide IsNew, InUse, Taken, Lookup;
  }

  /** What is asked of a client that is known changes nothing in the table. */
  lemma KnownClientIsNotRecorded(cfg: Config, table: seq<Entry>, m: Message)
    requires !IsNew(table, m.client)
    ensures Recorded(cfg, table, m) == table
  {
    NewIsNotFound(table, m.client);
    hide IsNew, Lookup, Respond;
  }

  /** The usual exchange, from an empty table: the first client discovers, is offered the lowest address, requests
      it of this server and is acknowledged. */
  lemma FirstClientIsServed(cfg: Config, discover: Message, request: Message)
    requires cfg.maximum != 0xFFFF_FFFF && discover.kind == 1 && request.kind == 3
    requires discover.client == request.client != [] && request.server == Some(cfg.host)
    ensures Answers(cfg, [], [discover, request]) == [Answer(2, cfg.minimum), Answer(5, cfg.minimum)]
  {
    var messages, table := [discover, request], [Entry(cfg.minimum, discover.client)];
    NewClientIsAnswered(cfg, [], discover);
    assert Recorded(cfg, [], discover) == table;
    LookupAt(table, 0, request.client);
    assert messages[1..] == [request] && messages[1..][1..] == [];
  }

  // ---------- bytes ----------

  /** Addresses travel most significant byte first. */
  lemma MostSignificantFirst(b3: Byte, b2: Byte, b1: Byte, b0: Byte)
    ensures var w := b0 + b1 * 0x100 + b2 * 0x1_0000 + b3 * 0x100_0000;
            MakeU32([b3, b2, b1, b0]) == w && BigEndian(w) == [b3, b2, b1, b0]
  {
    BytesOfFromBytes(b0, b1, b2, b3);
  }

  /** The option block of a reply, byte for byte. */
  lemma ReplyLayout(kind: Byte, h3: Byte, h2: Byte, h1: Byte, h0: Byte, m3: Byte, m2: Byte, m1: Byte, m0: Byte)
    ensures var options := ReplyOptions(kind, MakeU32([h3, h2, h1, h0]), MakeU32([m3, m2, m1, m0]));
            var middle := if kind == 6 then [0, 0, 0, 0, 0, 0, 0, 0, 0, 0, 0, 0]
                          else [51, 4, 0, 0, 0x0E, 0x10, 1, 4, m3, m2, m1, m0];
            options == [53, 1, kind] + middle + [54, 4, h3, h2, h1, h0] + [3, 4, h3, h2, h1, h0] + [255]
  {
    hide MakeU32, BigEndian, Zeros, Field, LeaseAndMask;
    FieldLayout(54, h3, h2, h1, h0);
    FieldLayout(3, h3, h2, h1, h0);
    MiddleLayout(kind, m3, m2, m1, m0);
  }

  lemma FieldLayout(code: Byte, b3: Byte, b2: Byte, b1: Byte, b0: Byte)
    ensures Field(code, MakeU32([b3, b2, b1, b0])) == [code, 4, b3, b2, b1, b0]
  {
    hide MakeU32, BigEndian;
    WrittenBack(b3, b2, b1, b0);
  }

  lemma MiddleLayout(kind: Byte, m3: Byte, m2: Byte, m1: Byte, m0: Byte)
    ensures LeaseAndMask(kind, MakeU32([m3, m2, m1, m0])) ==
            if kind == 6 then [0, 0, 0, 0, 0, 0, 0, 0, 0, 0, 0, 0]
            else [51, 4, 0, 0, 0x0E, 0x10, 1, 4, m3, m2, m1, m0]
  {
    hide MakeU32, Field;
    FieldLayout(51, 0, 0, 0x0E, 0x10);
    OneHour();
    FieldLayout(1, m3, m2, m1, m0);
  }

  lemma OneHour()
    ensures MakeU32([0, 0, 0x0E, 0x10]) == 3600
  {
  }

  /** The address fields of a reply: an acknowledgement (5) has the address in both, an offer (2) in the second, a
      refusal (6) of address 0 in neither. */
  lemma ReplyAddresses(cfg: Config, kind: Byte, b3: Byte, b2: Byte, b1: Byte, b0: Byte)
    ensures var a := MakeU32([b3, b2, b1, b0]);
            var sent := SentFor(cfg, Answer(kind, a));
            && sent.Reply? && sent.yiaddr == [b3, b2, b1, b0]
            && sent.ciaddr == (if kind == 5 then [b3, b2, b1, b0] else [0, 0, 0, 0])
            && sent.options[..4] == [99, 130, 83, 99]
    ensures SentFor(cfg, Silent) == Nothing && SentFor(cfg, Endless) == Hung
  {
    hide MakeU32, BigEndian, ReplyOptions;
    WrittenBack(b3, b2, b1, b0);
    ZeroBytes();
    var options := ReplyOptions(kind, cfg.host, cfg.mask);
    assert (MAGIC_COOKIE + options)[..4] == MAGIC_COOKIE;
  }

  lemma WrittenBack(b3: Byte, b2: Byte, b1: Byte, b0: Byte)
    ensures BigEndian(MakeU32([b3, b2, b1, b0])) == [b3, b2, b1, b0]
  {
    MostSignificantFirst(b3, b2, b1, b0);
  }

  lemma ZeroBytes()
    ensures BigEndian(0) == [0, 0, 0, 0]
  {
  }

  // ---------- what a packet says ----------

  /** The data of the first option with a code in a list. */
  function FirstData(items: seq<Item>, code: Byte): Option<seq<Byte>> {
    var k := FirstIndex(items, code);
    if k < |items| then Some(items[k].data) else None
  }

  /** The first eleven bytes are the server's own name. */
  predicate NamesTheServer(name: Option<seq<Byte>>) {
    name.Some? && |name.value| >= 11 && forall k :: 0 <= k < 11 ==> name.value[k] == "EMW-HotSpot"[k] as int
  }

  lemma OwnNameIs(name: Option<seq<Byte>>)
    ensures IsOwnName(name) <==> NamesTheServer(name)
  {
    var s := "EMW-HotSpot";
    assert s[0] == 'E' && s[1] == 'M' && s[2] == 'W' && s[3] == '-' && s[4] == 'H' && s[5] == 'o';
    assert s[6] == 't' && s[7] == 'S' && s[8] == 'p' && s[9] == 'o' && s[10] == 't';
    assert OWN_NAME == [69, 77, 87, 45, 72, 111, 116, 83, 112, 111, 116];
    if name.Some? && |name.value| >= 11 {
      assert name.value[..11] == OWN_NAME <==> forall k :: 0 <= k < 11 ==> name.value[k] == OWN_NAME[k];
    }
  }

  /** Packets too short, of another kind than a boot request (1), or without the magic cookie are ignored. */
  lemma OtherPacketsAreIgnored(p: Packet)
    requires PacketOk(p)
    requires p.size < 240 || p.buffer[0] != 1 || p.buffer[236..240] != [99, 130, 83, 99]
    ensures MessageIn(p) == None
  {
  }

  /** A boot request with options written as a list. */
  predicate IsRequestPacket(p: Packet, items: seq<Item>, rest: seq<Byte>) {
    && PacketOk(p) && p.size >= 240 && p.buffer[0] == 1 && p.buffer[236..240] == [99, 130, 83, 99]
    && ItemsOk(items) && Options(p) == Closed(items, rest)
  }

  /** The server heeds a request whose first message type (option 53) is one of the eight known, unless its first
      host name (option 12) begins with the server's own name. */
  lemma {:induction false} HeedsExactly(p: Packet, items: seq<Item>, rest: seq<Byte>)
    requires IsRequestPacket(p, items, rest)
    ensures var kind := FirstData(items, 53);
            MessageIn(p).Some? <==>
              && kind.Some? && |kind.value| == 1 && 1 <= kind.value[0] <= 8
              && !NamesTheServer(FirstData(items, 12))
    ensures MessageIn(p).Some? ==> MessageIn(p).value.kind == FirstData(items, 53).value[0]
  {
    hide DataOf, Closed, ItemsOk, FirstIndex, IsOwnName, NamesTheServer, Inside;
    DataOfItems(p, items, rest, 53);
    DataOfItems(p, items, rest, 12);
    OwnNameIs(FirstData(items, 12));
  }

  /**
   * What it takes from such a request: the client is the first client identifier (option 61), or without one the
   * hardware address in bytes 28 to 43; its address is in bytes 12 to 15; the address requested is the first option
   * 50 if that has four bytes, else 255.255.255.255; the server selected is the first option 54, and 0 if that has
   * not four bytes.
   */
  lemma {:induction false} TakesExactly(p: Packet, items: seq<Item>, rest: seq<Byte>)
    requires IsRequestPacket(p, items, rest) && MessageIn(p).Some?
    ensures var m := MessageIn(p).value;
            var id, requested, server := FirstData(items, 61), FirstData(items, 50), FirstData(items, 54);
            && (id.Some? ==> m.client == id.value)
            && (id.None? ==> |m.client| == 16 && forall k :: 0 <= k < 16 ==> m.client[k] == p.buffer[28 + k])
            && m.ciaddr == MakeU32([p.buffer[12], p.buffer[13], p.buffer[14], p.buffer[15]])
            && (requested.Some? && |requested.value| == 4 ==> m.requested == MakeU32(requested.value))
            && (requested.None? || |requested.value| != 4 ==> m.requested == 0xFFFF_FFFF)
            && (server.None? <==> m.server == None)
            && (server.Some? && |server.value| == 4 ==> m.server == Some(MakeU32(server.value)))
            && (server.Some? && |server.value| != 4 ==> m.server == Some(0))
  {
    hide DataOf, Closed, ItemsOk, FirstIndex, IsOwnName, MakeU32, Inside;
    DataOfItems(p, items, rest, 61);
    DataOfItems(p, items, rest, 50);
    DataOfItems(p, items, rest, 54);
    assert p.buffer[12..16] == [p.buffer[12], p.buffer[13], p.buffer[14], p.buffer[15]];
  }
}
