/** The DHCP server object: what it reads in a packet, what it stores and what it sends back. */
module DhcpServer {
  import opened Words
  import opened Text
  import opened DhcpOptions
  import opened DhcpBindings

  // ---------- the packet received ----------

  const HOST_NAME: Byte := 12
  const REQUESTED_ADDRESS: Byte := 50
  const CLIENT_IDENTIFIER: Byte := 61
  const HEADER_SIZE: nat := 240

  /** "EMW-HotSpot": packets that carry the server's own name are its own. */
  const OWN_NAME: seq<Byte> := [69, 77, 87, 45, 72, 111, 116, 83, 112, 111, 116]

  /** The receive buffer, of which `size` bytes were received. */
  datatype Packet = Packet(buffer: seq<Byte>, size: nat)

  predicate PacketOk(p: Packet) {
    HEADER_SIZE <= |p.buffer| && p.size <= |p.buffer|
  }

  predicate Heard(p: Packet)
    requires PacketOk(p)
  {
    HEADER_SIZE <= p.size && p.buffer[0] == 1 && p.buffer[236..240] == MAGIC_COOKIE
  }

  function Options(p: Packet): seq<Byte>
    requires PacketOk(p) && HEADER_SIZE <= p.size
  {
    p.buffer[HEADER_SIZE..p.size]
  }

  /** The data of an option as the announced length has it; bytes outside the buffer, never asked for, are 0. */
  function DataAtFound(p: Packet, f: Found): (data: seq<Byte>)
    ensures |data| == f.length
  {
    seq(f.length, k requires 0 <= k < f.length =>
      var i := HEADER_SIZE + f.position + k; if i < |p.buffer| then p.buffer[i] else 0)
  }

  function DataOf(p: Packet, code: Byte): Option<seq<Byte>>
    requires PacketOk(p) && HEADER_SIZE <= p.size
  {
    match Find(Options(p), code)
    case None => None
    case Some(f) => Some(DataAtFound(p, f))
  }

  /** Of an option with at most this length announced, or at least that, so many bytes are in the receive buffer. */
  predicate Inside(p: Packet, code: Byte, most: nat, least: nat, bytes: nat)
    requires PacketOk(p)
  {
    HEADER_SIZE <= p.size ==>
      match Find(Options(p), code)
      case None => true
      case Some(f) =>
        least <= f.length <= most ==>
          HEADER_SIZE + f.position + (if f.length <= bytes then f.length else bytes) <= |p.buffer|
  }

  /**
   * What the source leaves to the sender: the bytes it reads are in the receive buffer. A type is read of one byte,
   * an address of four, an identifier up to the sixteen of a table entry, and of a name what the own name is compared with.
   */
  predicate ReadsInside(p: Packet)
    requires PacketOk(p)
  {
    Heard(p) ==>
      && Inside(p, MESSAGE_TYPE, 1, 1, 1) && Inside(p, HOST_NAME, 255, |OWN_NAME|, |OWN_NAME|)
      && Inside(p, CLIENT_IDENTIFIER, 16, 0, 16)
      && (DataOf(p, MESSAGE_TYPE) == Some([REQUEST]) ==>
            Inside(p, REQUESTED_ADDRESS, 4, 4, 4) && Inside(p, SERVER_IDENTIFIER, 4, 4, 4))
  }

  /** For options written as a list and closed by END, it is the data of the first with the code. */
  lemma {:induction false} DataOfItems(p: Packet, items: seq<Item>, rest: seq<Byte>, code: Byte)
    requires PacketOk(p) && HEADER_SIZE <= p.size && ItemsOk(items) && code != PAD && code != END
    requires Options(p) == Closed(items, rest)
    ensures var k := FirstIndex(items, code);
            && DataOf(p, code) == (if k == |items| then None else Some(items[k].data))
            && forall most, least, bytes :: Inside(p, code, most, least, bytes)
  {
    hide Closed, ItemsOk, Find, Offset, FirstIndex, Encode;
    FirstMatch(items, rest, code);
    var k := FirstIndex(items, code);
    if k < |items| {
      DataAt(items, k);
      InClosed(items, rest, Offset(items, k) + 2, items[k].data);
      var f := Find(Options(p), code).value;
      forall i | 0 <= i < f.length ensures DataAtFound(p, f)[i] == items[k].data[i] {
        assert p.buffer[HEADER_SIZE + f.position + i] == Options(p)[f.position + i];
        assert Options(p)[f.position..f.position + f.length][i] == Options(p)[f.position + i];
      }
      assert DataAtFound(p, f) == items[k].data;
    }
  }

  lemma InClosed(items: seq<Item>, rest: seq<Byte>, at: nat, data: seq<Byte>)
    requires ItemsOk(items) && HasAt(Encode(items), at, data)
    ensures HasAt(Closed(items, rest), at, data)
  {
    hide Encode;
    assert Closed(items, rest)[at..at + |data|] == Encode(items)[at..at + |data|];
  }

  predicate IsOwnName(name: Option<seq<Byte>>) {
    name.Some? && OWN_NAME <= name.value
  }

  function WordOf(data: Option<seq<Byte>>, otherwise: Word): Word {
    if data.Some? && |data.value| == 4 then MakeU32(data.value) else otherwise
  }

  predicate IsKind(kind: Option<seq<Byte>>) {
    kind.Some? && |kind.value| == 1 && 1 <= kind.value[0] <= 8
  }

  /** The message in a packet; none if the packet is to be ignored. */
  function MessageIn(p: Packet): Option<Message>
    requires PacketOk(p)
  {
    if !Heard(p) || !IsKind(DataOf(p, MESSAGE_TYPE)) || IsOwnName(DataOf(p, HOST_NAME)) then None
    else
      var id, server := DataOf(p, CLIENT_IDENTIFIER), DataOf(p, SERVER_IDENTIFIER);
      Some(Message(
        DataOf(p, MESSAGE_TYPE).value[0],
        if id.Some? then id.value else p.buffer[28..44],
        MakeU32(p.buffer[12..16]),
        WordOf(DataOf(p, REQUESTED_ADDRESS), BROADCAST),
        if server.Some? then Some(WordOf(server, 0)) else None))
  }

  // ---------- a request written and read back ----------

  /** How a client writes a message as options, one it does not name itself in by the hardware address. */
  function RequestItems(m: Message): seq<Item> {
    [Opt(MESSAGE_TYPE, [m.kind]), Opt(CLIENT_IDENTIFIER, m.client), Opt(REQUESTED_ADDRESS, BigEndian(m.requested))]
    + match m.server
      case None => []
      case Some(server) => [Opt(SERVER_IDENTIFIER, BigEndian(server))]
  }

  /** A boot request's fixed part, with the client's address in it. */
  predicate IsHeader(header: seq<Byte>, ciaddr: Word) {
    && |header| == HEADER_SIZE && header[0] == 1 && header[236..240] == MAGIC_COOKIE
    && MakeU32(header[12..16]) == ciaddr
  }

  predicate MessageOk(m: Message) {
    1 <= m.kind <= 8 && |m.client| < 0x100
  }

  lemma RequestItemsAre(m: Message)
    requires MessageOk(m)
    ensures var items := RequestItems(m);
            var n := |items|;
            && ItemsOk(items)
            && FirstIndex(items, MESSAGE_TYPE) == 0 && FirstIndex(items, CLIENT_IDENTIFIER) == 1
            && FirstIndex(items, REQUESTED_ADDRESS) == 2 && FirstIndex(items, HOST_NAME) == n
            && FirstIndex(items, SERVER_IDENTIFIER) == 3
  {
    hide FirstIndex, BigEndian;
    var items := RequestItems(m);
    var n := |items|;
    assert ItemsOk(items);
    FirstIndexIs(items, MESSAGE_TYPE, 0);
    FirstIndexIs(items, CLIENT_IDENTIFIER, 1);
    FirstIndexIs(items, REQUESTED_ADDRESS, 2);
    FirstIndexIs(items, HOST_NAME, n);
    FirstIndexIs(items, SERVER_IDENTIFIER, 3);
  }

  lemma FirstIndexIs(items: seq<Item>, code: Byte, k: nat)
    requires k <= |items| && (forall j :: 0 <= j < k ==> !HasCode(items[j], code))
    requires k < |items| ==> HasCode(items[k], code)
    ensures FirstIndex(items, code) == k
  {
  }

  /** The server takes from a packet exactly the message the client wrote in it. */
  lemma {:induction false} RequestReadsBack(header: seq<Byte>, m: Message, rest: seq<Byte>)
    requires MessageOk(m) && IsHeader(header, m.ciaddr)
    ensures ItemsOk(RequestItems(m))
    ensures var options := Closed(RequestItems(m), rest);
            var p := Packet(header + options, HEADER_SIZE + |options|);
            PacketOk(p) && ReadsInside(p) && MessageIn(p) == Some(m)
  {
    hide Closed, Find, DataOf, Inside, ItemsOk, FirstIndex, RequestItems, BigEndian, MakeU32;
    var items := RequestItems(m);
    RequestItemsAre(m);
    var options := Closed(items, rest);
    var p := Packet(header + options, HEADER_SIZE + |options|);
    assert Options(p) == options;
    DataOfItems(p, items, rest, MESSAGE_TYPE);
    DataOfItems(p, items, rest, HOST_NAME);
    DataOfItems(p, items, rest, CLIENT_IDENTIFIER);
    DataOfItems(p, items, rest, REQUESTED_ADDRESS);
    DataOfItems(p, items, rest, SERVER_IDENTIFIER);
    RequestData(m);
    assert p.buffer[236..240] == header[236..240] && p.buffer[12..16] == header[12..16];
  }

  lemma RequestData(m: Message)
    ensures var items := RequestItems(m);
            && |items| == (if m.server.Some? then 4 else 3)
            && items[0].Opt? && items[0].data == [m.kind] && items[1].Opt? && items[1].data == m.client
            && items[2].Opt? && items[2].data == BigEndian(m.requested) && MakeU32(items[2].data) == m.requested
            && (m.server.Some? ==> items[3].Opt? && |items[3].data| == 4 && MakeU32(items[3].data) == m.server.value)
  {
    hide BigEndian, MakeU32;
    BigEndianRoundTrip(m.requested);
    if m.server.Some? {
      BigEndianRoundTrip(m.server.value);
    }
  }

  // ---------- the packet sent ----------

  /** Nothing, or a reply; Hung stands for the search that never ends. */
  datatype Sent = Nothing | Hung | Reply(ciaddr: seq<Byte>, yiaddr: seq<Byte>, options: seq<Byte>)

  function SentFor(cfg: Config, answer: Answer): Sent {
    match answer
    case Silent => Nothing
    case Endless => Hung
    case Answer(kind, a) =>
      Reply(BigEndian(if kind == ACK then a else 0), BigEndian(a),
            MAGIC_COOKIE + ReplyOptions(kind, cfg.host, cfg.mask))
  }

  /** A client that scans the options of a reply recovers the kind of answer and the address. */
  lemma ReplyTellsTheAnswer(cfg: Config, answer: Answer)
    requires answer.Answer?
    ensures var sent := SentFor(cfg, answer);
            && sent.Reply? && |sent.yiaddr| == 4 && MakeU32(sent.yiaddr) == answer.address
            && Read(sent.options[4..], MESSAGE_TYPE) == Some([answer.kind])
            && Read(sent.options[4..], SERVER_IDENTIFIER) == Some(BigEndian(cfg.host))
  {
    hide Read, ReplyOptions, BigEndian;
    BigEndianRoundTrip(answer.address);
    ReplyReadsBack(answer.kind, cfg.host, cfg.mask);
    assert (MAGIC_COOKIE + ReplyOptions(answer.kind, cfg.host, cfg.mask))[4..]
        == ReplyOptions(answer.kind, cfg.host, cfg.mask);
  }

  // ---------- the object ----------

  /** What is left in lastOfferIpAddress by a DISCOVER that is answered or refused. */
  function LastOffer(cfg: Config, table: seq<Entry>, client: seq<Byte>): Word {
    match Lookup(table, client)
    case Some(a) => a
    case None => if Taken(table, cfg.minimum) then cfg.maximum else cfg.minimum
  }

  class DhcpServer {
    const addressInfos: array<Entry>
    var addressInfosStored: nat
    const hostIpAddress: Word
    const subNetworkMask: Word
    const minimumIpAddress: Word
    const maximumIpAddress: Word
    var lastOfferIpAddress: Word

    predicate Valid()
      reads this, addressInfos
    {
      && addressInfos.Length == CAPACITY && addressInfosStored <= CAPACITY
      && forall k :: 0 <= k < addressInfosStored ==> |addressInfos[k].client| <= 16
    }

    function Table(): seq<Entry>
      requires Valid()
      reads this, addressInfos
    {
      addressInfos[..addressInfosStored]
    }

    function Cfg(): Config {
      Config(hostIpAddress, subNetworkMask, minimumIpAddress, maximumIpAddress)
    }

    constructor (host: Word, mask: Word)
      ensures Valid() && Table() == [] && fresh(addressInfos)
      ensures Cfg() == Config(host, mask, Or(host, 15), Or(host, 20))
    {
      addressInfos := new Entry[CAPACITY](_ => Entry(0, []));
      addressInfosStored := 0;
      hostIpAddress := host;
      subNetworkMask := mask;
      minimumIpAddress := Or(host, 15);
      maximumIpAddress := Or(host, 20);
      lastOfferIpAddress := 0;
    }

    /** The first entry the filter accepts, or -1. */
    method FindIndex(filter: Entry -> bool) returns (index: int)
      requires Valid()
      ensures -1 <= index < addressInfosStored
      ensures index == -1 ==> forall k :: 0 <= k < addressInfosStored ==> !filter(Table()[k])
      ensures index >= 0 ==> filter(Table()[index]) && forall k :: 0 <= k < index ==> !filter(Table()[k])
    {
      index := -1;
      var i := 0;
      while i < addressInfosStored && index == -1
        invariant 0 <= i <= addressInfosStored
        invariant index == -1 ==> forall k :: 0 <= k < i ==> !filter(addressInfos[k])
        invariant index != -1 ==> 0 <= index < addressInfosStored && filter(addressInfos[index])
                                  && forall k :: 0 <= k < index ==> !filter(addressInfos[k])
        decreases addressInfosStored - i, index == -1
      {
        if filter(addressInfos[i]) {
          index := i;
        } else {
          i := i + 1;
        }
      }
    }

    method FindClient(client: seq<Byte>) returns (address: Option<Word>)
      requires Valid()
      ensures address == Lookup(Table(), client)
    {
      var index := FindIndex(entry => CheckHardwareAddress(entry, client));
      hide Lookup;
      if index != -1 {
        LookupAt(Table(), index, client);
        address := Some(addressInfos[index].ipAddress);
      } else {
        address := None;
      }
    }

    method IsTaken(address: Word) returns (taken: bool)
      requires Valid()
      ensures taken == Taken(Table(), address)
    {
      var index := FindIndex(entry => CheckIpAddress(entry, address));
      taken := index != -1;
    }

    method StoreInfo(entry: Entry) returns (done: bool)
      requires Valid() && |entry.client| <= 16
      modifies this`addressInfosStored, addressInfos
      ensures Valid() && done == (|old(Table())| < CAPACITY)
      ensures Table() == if done then old(Table()) + [entry] else old(Table())
    {
      done := addressInfosStored < CAPACITY;
      if done {
        addressInfos[addressInfosStored] := entry;
        addressInfosStored := addressInfosStored + 1;
      }
    }

    /** The loop that looks for a free address, cut after a number of turns the caller chooses. */
    method SearchAddress(turns: nat) returns (s: Search)
      requires Valid() && turns >= 1
      ensures Ended(s, maximumIpAddress) <==> SearchCanEnd(Table(), minimumIpAddress, maximumIpAddress)
      ensures Ended(s, maximumIpAddress) ==> (s.valid <==> !Taken(Table(), minimumIpAddress))
      ensures s.valid ==> s.next == minimumIpAddress
    {
      s := Begin(maximumIpAddress);
      var n := 0;
      assert s == Looked(0, Table(), minimumIpAddress, maximumIpAddress);
      hide Taken, Ended;
      while n < turns && !Ended(s, maximumIpAddress)
        invariant n <= turns && s == Looked(n, Table(), minimumIpAddress, maximumIpAddress)
        invariant n == 0 ==> !Ended(s, maximumIpAddress)
      {
        if maximumIpAddress < s.next {
          var taken := IsTaken(minimumIpAddress);
          s := Search(if taken then Wrap(minimumIpAddress + 1) else minimumIpAddress, !taken, true);
        }
        n := n + 1;
      }
      LookedAfter(n, Table(), minimumIpAddress, maximumIpAddress);
    }

    /**
     * handleDiscoverMessage: an offer if the client is known or a free address is found and stored. `hung` says that
     * the search was still going when it was cut.
     */
    method HandleDiscoverMessage(client: seq<Byte>, offer: Option<Word>, turns: nat)
      returns (answer: Answer, hung: bool)
      requires Valid() && turns >= 1 && |client| <= 16 && offer == Lookup(Table(), client)
      modifies this`addressInfosStored, this`lastOfferIpAddress, addressInfos
      ensures Valid()
      ensures answer == (if offer.Some? then Answer(OFFER, offer.value) else ToNew(Cfg(), old(Table())))
      ensures hung == answer.Endless?
      ensures Table() == if offer.None? && answer.Answer? then old(Table()) + [Entry(answer.address, client)]
                         else old(Table())
      ensures lastOfferIpAddress == if hung then maximumIpAddress else LastOffer(Cfg(), old(Table()), client)
    {
      hide Lookup, Taken;
      lastOfferIpAddress := maximumIpAddress;
      answer, hung := Silent, false;
      var found := Search(0, true, false);
      if offer.Some? {
        found := Search(offer.value, true, false);
      } else {
        found := SearchAddress(turns);
        hung := !Ended(found, maximumIpAddress);
      }
      if hung {
        answer := Endless;
      } else if found.valid {
        lastOfferIpAddress := found.next;
        var stored := true;
        if offer.None? {
          stored := StoreInfo(Entry(found.next, client));
        }
        if stored {
          answer := Answer(OFFER, found.next);
        }
      }
    }

    /** handleRequestMessage. */
    method HandleRequestMessage(m: Message, offer: Option<Word>) returns (answer: Answer)
      requires m.kind == REQUEST
      ensures answer == if offer.Some? then ToKnown(Cfg(), m, offer.value) else Answer(NAK, 0)
    {
      var kind := NAK;
      if m.server.Some? && hostIpAddress == m.server.value {
        if offer.Some? {
          kind := ACK;
        }
      } else if m.requested != BROADCAST || m.ciaddr != 0 {
        if offer.Some? && (offer.value == m.requested || offer.value == m.ciaddr) {
          kind := ACK;
        }
      }
      answer := if kind == ACK then Answer(ACK, offer.value) else Answer(NAK, 0);
    }

    /** The data of an option of the packet. */
    method OptionData(p: Packet, code: Byte) returns (data: Option<seq<Byte>>)
      requires PacketOk(p) && HEADER_SIZE <= p.size
      ensures data == DataOf(p, code)
    {
      var found := FindOption(Options(p), code);
      match found {
        case None => data := None;
        case Some(f) => data := Some(DataAtFound(p, f));
      }
    }

    /** What processRequest reads before it decides. */
    method Receive(p: Packet) returns (message: Option<Message>)
      requires PacketOk(p) && ReadsInside(p)
      ensures message == MessageIn(p)
    {
      hide DataOf, Inside, ReadsInside;
      message := None;
      if Heard(p) {
        var kind := OptionData(p, MESSAGE_TYPE);
        if IsKind(kind) {
          var name := OptionData(p, HOST_NAME);
          if !IsOwnName(name) {
            var id := OptionData(p, CLIENT_IDENTIFIER);
            var requested := OptionData(p, REQUESTED_ADDRESS);
            var server := OptionData(p, SERVER_IDENTIFIER);
            message := Some(Message(
              kind.value[0],
              if id.Some? then id.value else p.buffer[28..44],
              MakeU32(p.buffer[12..16]),
              WordOf(requested, BROADCAST),
              if server.Some? then Some(WordOf(server, 0)) else None));
          }
        }
      }
    }

    method Send(answer: Answer) returns (sent: Sent)
      ensures sent == SentFor(Cfg(), answer)
    {
      match answer {
        case Silent => sent := Nothing;
        case Endless => sent := Hung;
        case Answer(kind, a) =>
          var options := new Byte[REPLY_SIZE](_ => 0);
          assert options[..] == Zeros(REPLY_SIZE);
          SetReplyOptions(options, kind, hostIpAddress, subNetworkMask);
          sent := Reply(BigEndian(if kind == ACK then a else 0), BigEndian(a), options[..]);
      }
    }

    /**
     * processRequest, for a DISCOVER whose client identifier fits the 16 bytes of a table entry. Cutting the search
     * after one turn or after any number of turns makes no difference to what is sent or recorded.
     */
    method ProcessRequest(p: Packet, turns: nat) returns (sent: Sent)
      requires Valid() && PacketOk(p) && ReadsInside(p) && turns >= 1
      requires MessageIn(p).Some? && MessageIn(p).value.kind == DISCOVER ==> |MessageIn(p).value.client| <= 16
      modifies this`addressInfosStored, this`lastOfferIpAddress, addressInfos
      ensures Valid()
      ensures match MessageIn(p)
              case None => sent == Nothing && Table() == old(Table())
              case Some(m) =>
                && sent == SentFor(Cfg(), Respond(Cfg(), old(Table()), m))
                && Table() == Recorded(Cfg(), old(Table()), m)
    {
      hide MessageIn, ReadsInside, Lookup, SentFor, Taken, SearchCanEnd;
      var message := Receive(p);
      if message.None? {
        return Nothing;
      }
      var m := message.value;
      var offer := FindClient(m.client);
      var answer := Silent;
      if m.kind == DISCOVER {
        var hung: bool;
        answer, hung := HandleDiscoverMessage(m.client, offer, turns);
      } else if m.kind == REQUEST {
        answer := HandleRequestMessage(m, offer);
      }
      sent := Send(answer);
    }
  }
}
