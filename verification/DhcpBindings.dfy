/** The DHCP server's table of clients: what each message answers, over one message and over whole runs. */
module DhcpBindings {
  import opened Words
  import opened Text
  import opened DhcpOptions

  const BROADCAST: Word := 0xFFFF_FFFF
  const CAPACITY: nat := 5

  /** A client identifier with the address recorded for it. */
  datatype Entry = Entry(ipAddress: Word, client: seq<Byte>)

  datatype Config = Config(host: Word, mask: Word, minimum: Word, maximum: Word)

  /** What the server takes from a request it does not ignore. */
  datatype Message = Message(kind: Byte, client: seq<Byte>, ciaddr: Word, requested: Word, server: Option<Word>)

  /** Endless: the address search does not end, and the server hears nothing any more. */
  datatype Answer = Silent | Endless | Answer(kind: Byte, address: Word)

  const DISCOVER: Byte := 1
  const REQUEST: Byte := 3

  // ---------- looking up the table ----------

  predicate CheckIpAddress(entry: Entry, address: Word) {
    entry.ipAddress == address
  }

  predicate CheckHardwareAddress(entry: Entry, client: seq<Byte>) {
    entry.client != [] && entry.client == client
  }

  predicate Taken(table: seq<Entry>, address: Word) {
    exists k :: 0 <= k < |table| && CheckIpAddress(table[k], address)
  }

  /** The address of the first entry of a client. */
  function Lookup(table: seq<Entry>, client: seq<Byte>): (a: Option<Word>)
    ensures a.None? <==> forall k :: 0 <= k < |table| ==> !CheckHardwareAddress(table[k], client)
  {
    if table == [] then None
    else if CheckHardwareAddress(table[0], client) then Some(table[0].ipAddress)
    else
      assert forall k :: 1 <= k < |table| ==> table[k] == table[1..][k - 1];
      Lookup(table[1..], client)
  }

  lemma LookupAt(table: seq<Entry>, k: nat, client: seq<Byte>)
    requires k < |table| && CheckHardwareAddress(table[k], client)
    requires forall j :: 0 <= j < k ==> !CheckHardwareAddress(table[j], client)
    ensures Lookup(table, client) == Some(table[k].ipAddress)
  {
    if k > 0 {
      LookupAt(table[1..], k - 1, client);
    }
  }

  lemma LookupAppended(table: seq<Entry>, entry: Entry, client: seq<Byte>)
    ensures Lookup(table + [entry], client) ==
            if Lookup(table, client).Some? then Lookup(table, client)
            else if CheckHardwareAddress(entry, client) then Some(entry.ipAddress) else None
  {
    if table == [] {
      assert table + [entry] == [entry];
    } else {
      assert (table + [entry])[1..] == table[1..] + [entry];
      LookupAppended(table[1..], entry, client);
    }
  }

  // ---------- the search for a free address ----------

  datatype Search = Search(next: Word, valid: bool, wrapped: bool)

  function Begin(maximum: Word): Search {
    Search(Wrap(maximum + 1), false, false)
  }

  predicate Ended(s: Search, maximum: Word) {
    s.valid || (s.wrapped && s.next == Wrap(maximum + 1))
  }

  /** One turn of the loop: only an address above the maximum changes anything. */
  function Look(s: Search, table: seq<Entry>, minimum: Word, maximum: Word): Search {
    if maximum < s.next then
      var free := !Taken(table, minimum);
      Search(if free then minimum else Wrap(minimum + 1), free, true)
    else s
  }

  function Looked(n: nat, table: seq<Entry>, minimum: Word, maximum: Word): Search {
    if n == 0 then Begin(maximum) else Look(Looked(n - 1, table, minimum, maximum), table, minimum, maximum)
  }

  /** What a caller can check before the search. */
  predicate SearchCanEnd(table: seq<Entry>, minimum: Word, maximum: Word) {
    maximum != BROADCAST && (!Taken(table, minimum) || minimum == maximum)
  }

  /** Each turn after the first finds what the first one found, or the search is over. */
  lemma {:induction false} LookedAfter(n: nat, table: seq<Entry>, minimum: Word, maximum: Word)
    requires n >= 1
    ensures var s := Looked(n, table, minimum, maximum);
            && (Ended(s, maximum) <==> SearchCanEnd(table, minimum, maximum))
            && (s.valid ==> maximum != BROADCAST && !Taken(table, minimum) && s.next == minimum)
            && (maximum != BROADCAST && !Taken(table, minimum) ==> s.valid)
            && (s == Begin(maximum) <==> maximum == BROADCAST)
  {
    hide Taken;
    if n > 1 {
      LookedAfter(n - 1, table, minimum, maximum);
    } else {
      assert Looked(0, table, minimum, maximum) == Begin(maximum);
    }
  }

  /** The search for a new client's address ends if and only if that can be seen before it. */
  lemma SearchEnds(table: seq<Entry>, minimum: Word, maximum: Word)
    ensures (exists n :: Ended(Looked(n, table, minimum, maximum), maximum))
       <==> SearchCanEnd(table, minimum, maximum)
  {
    assert !Ended(Looked(0, table, minimum, maximum), maximum);
    hide Taken, Looked;
    forall n: nat | n >= 1
      ensures Ended(Looked(n, table, minimum, maximum), maximum) <==> SearchCanEnd(table, minimum, maximum)
    {
      LookedAfter(n, table, minimum, maximum);
    }
    assert Ended(Looked(1, table, minimum, maximum), maximum) <==> SearchCanEnd(table, minimum, maximum);
  }

  // ---------- one message ----------

  /** The client asked for the address, by selecting this server or by naming it. */
  predicate AsksFor(cfg: Config, m: Message, a: Word) {
    if m.server == Some(cfg.host) then true
    else (m.requested != BROADCAST || m.ciaddr != 0) && (a == m.requested || a == m.ciaddr)
  }

  /** The answer to a client whose address is recorded. */
  function ToKnown(cfg: Config, m: Message, a: Word): Answer {
    if m.kind == DISCOVER then Answer(OFFER, a)
    else if m.kind == REQUEST then if AsksFor(cfg, m, a) then Answer(ACK, a) else Answer(NAK, 0)
    else Silent
  }

  /** The answer to the DISCOVER of a client that is not in the table. */
  function ToNew(cfg: Config, table: seq<Entry>): Answer {
    if !SearchCanEnd(table, cfg.minimum, cfg.maximum) then Endless
    else if Taken(table, cfg.minimum) || |table| >= CAPACITY then Silent
    else Answer(OFFER, cfg.minimum)
  }

  function Respond(cfg: Config, table: seq<Entry>, m: Message): Answer {
    match Lookup(table, m.client)
    case Some(a) => ToKnown(cfg, m, a)
    case None =>
      if m.kind == DISCOVER then ToNew(cfg, table) else if m.kind == REQUEST then Answer(NAK, 0) else Silent
  }

  /** The table after a message: a new client that gets an offer is recorded with it. */
  function Recorded(cfg: Config, table: seq<Entry>, m: Message): seq<Entry> {
    var answer := Respond(cfg, table, m);
    if answer.Answer? && answer.kind == OFFER && Lookup(table, m.client).None?
    then table + [Entry(answer.address, m.client)] else table
  }

  /** A client identified by no bytes matches no entry, not even its own. */
  ghost predicate TableOk(table: seq<Entry>) {
    && |table| <= CAPACITY
    && (forall i, j :: 0 <= i < j < |table| ==> table[i].ipAddress != table[j].ipAddress)
    && (forall i, j :: 0 <= i < j < |table| && table[i].client != [] ==> table[i].client != table[j].client)
  }

  predicate Grants(answer: Answer, a: Word) {
    answer == Answer(OFFER, a) || answer == Answer(ACK, a)
  }

  /** Every message keeps clients and addresses distinct and only appends; what it grants is then recorded. */
  lemma MessageKeeps(cfg: Config, table: seq<Entry>, m: Message)
    requires TableOk(table)
    ensures var more := Recorded(cfg, table, m);
            && TableOk(more) && table <= more
            && (forall client, a :: Lookup(table, client) == Some(a) ==> Lookup(more, client) == Some(a))
            && (forall a: Word :: Grants(Respond(cfg, table, m), a) && m.client != [] ==> Lookup(more, m.client) == Some(a))
  {
    var more := Recorded(cfg, table, m);
    if more != table {
      var entry := more[|table|];
      forall client ensures Lookup(table, client).Some? ==> Lookup(more, client) == Lookup(table, client) {
        LookupAppended(table, entry, client);
      }
      LookupAppended(table, entry, m.client);
    }
  }

  // ---------- whole runs ----------

  /** The answers to a list of messages; a search without end leaves the rest unanswered. */
  function Answers(cfg: Config, table: seq<Entry>, messages: seq<Message>): (answers: seq<Answer>)
    ensures |answers| <= |messages|
    decreases |messages|
  {
    if messages == [] then []
    else
      var first := Respond(cfg, table, messages[0]);
      if first.Endless? then [first]
      else [first] + Answers(cfg, Recorded(cfg, table, messages[0]), messages[1..])
  }

  /** A client in the table keeps its address, and is answered from it, all through the run. */
  lemma {:induction false} KnownClientIsServed(
      cfg: Config, table: seq<Entry>, messages: seq<Message>, j: nat, a: Word)
    requires TableOk(table) && j < |Answers(cfg, table, messages)| && Lookup(table, messages[j].client) == Some(a)
    ensures Answers(cfg, table, messages)[j] == ToKnown(cfg, messages[j], a)
    decreases |messages|
  {
    hide TableOk, Recorded, Lookup, ToKnown;
    if j > 0 {
      hide Respond;
      MessageKeeps(cfg, table, messages[0]);
      var more := Recorded(cfg, table, messages[0]);
      assert Answers(cfg, table, messages)[j] == Answers(cfg, more, messages[1..])[j - 1];
      KnownClientIsServed(cfg, more, messages[1..], j - 1, a);
    }
  }

  /** After a grant, the same client is answered from the address granted: in particular a REQUEST that selects
      this server is acknowledged. */
  lemma {:induction false} GrantIsHonoured(
      cfg: Config, table: seq<Entry>, messages: seq<Message>, i: nat, j: nat, a: Word)
    requires TableOk(table) && i < j < |Answers(cfg, table, messages)|
    requires messages[i].client == messages[j].client != []
    requires Grants(Answers(cfg, table, messages)[i], a)
    ensures Answers(cfg, table, messages)[j] == ToKnown(cfg, messages[j], a)
    decreases |messages|
  {
    hide TableOk, Recorded, Lookup, Respond, ToKnown;
    MessageKeeps(cfg, table, messages[0]);
    var more := Recorded(cfg, table, messages[0]);
    assert Answers(cfg, table, messages)[j] == Answers(cfg, more, messages[1..])[j - 1];
    if i == 0 {
      KnownClientIsServed(cfg, more, messages[1..], j - 1, a);
    } else {
      GrantIsHonoured(cfg, more, messages[1..], i - 1, j - 1, a);
    }
  }

  /** Bindings are sticky: any two offers or acknowledgements to one client carry the same address. */
  lemma StickyBindings(cfg: Config, table: seq<Entry>, messages: seq<Message>, i: nat, j: nat, a: Word, b: Word)
    requires TableOk(table) && i <= j < |Answers(cfg, table, messages)|
    requires messages[i].client == messages[j].client
    requires Grants(Answers(cfg, table, messages)[i], a) && Grants(Answers(cfg, table, messages)[j], b)
    ensures a == b
  {
    hide TableOk, Answers;
    if messages[i].client == [] {
      UnnamedGetsMinimum(cfg, table, messages, i, a);
      UnnamedGetsMinimum(cfg, table, messages, j, b);
    } else if i < j {
      GrantIsHonoured(cfg, table, messages, i, j, a);
    }
  }

  /** A client that names itself by no bytes is always taken for a new one. */
  lemma {:induction false} UnnamedGetsMinimum(
      cfg: Config, table: seq<Entry>, messages: seq<Message>, j: nat, a: Word)
    requires j < |Answers(cfg, table, messages)| && messages[j].client == []
    requires Grants(Answers(cfg, table, messages)[j], a)
    ensures a == cfg.minimum
    decreases |messages|
  {
    if j > 0 {
      hide Recorded, Lookup, Respond;
      var more := Recorded(cfg, table, messages[0]);
      assert Answers(cfg, table, messages)[j] == Answers(cfg, more, messages[1..])[j - 1];
      UnnamedGetsMinimum(cfg, more, messages[1..], j - 1, a);
    } else {
      hide SearchCanEnd, Taken;
    }
  }

  predicate HasEntry(table: seq<Entry>, client: seq<Byte>, a: Word) {
    Entry(a, client) in table
  }

  /** Whatever is granted is in the table afterwards, under the client's own name. */
  lemma GrantIsEntered(cfg: Config, table: seq<Entry>, m: Message, a: Word)
    requires Grants(Respond(cfg, table, m), a)
    ensures HasEntry(Recorded(cfg, table, m), m.client, a) && table <= Recorded(cfg, table, m)
  {
    hide SearchCanEnd, Taken;
    if Lookup(table, m.client).Some? {
      assert table[IndexOf(table, m.client)] == Entry(a, m.client);
    }
  }

  /** An address in the table is granted to nobody but the client it is recorded for. */
  lemma EntryIsOwned(cfg: Config, table: seq<Entry>, m: Message, owner: seq<Byte>, a: Word)
    requires TableOk(table) && HasEntry(table, owner, a) && Grants(Respond(cfg, table, m), a)
    ensures m.client == owner
  {
    var k :| 0 <= k < |table| && table[k] == Entry(a, owner);
    assert CheckIpAddress(table[k], a);
    if Lookup(table, m.client).Some? {
      assert table[IndexOf(table, m.client)].ipAddress == a;
    }
  }

  /** No two clients are ever granted one address. */
  lemma {:induction false} DistinctAddresses(
      cfg: Config, table: seq<Entry>, messages: seq<Message>, i: nat, j: nat, a: Word)
    requires TableOk(table) && i <= j < |Answers(cfg, table, messages)|
    requires Grants(Answers(cfg, table, messages)[i], a) && Grants(Answers(cfg, table, messages)[j], a)
    ensures messages[i].client == messages[j].client
    decreases |messages|
  {
    hide TableOk, Recorded, Lookup, Respond;
    if j > 0 {
      MessageKeeps(cfg, table, messages[0]);
      var more := Recorded(cfg, table, messages[0]);
      assert Answers(cfg, table, messages)[j] == Answers(cfg, more, messages[1..])[j - 1];
      if i == 0 {
        GrantIsEntered(cfg, table, messages[0], a);
        GrantedToItsOwner(cfg, more, messages[1..], j - 1, messages[0].client, a);
      } else {
        DistinctAddresses(cfg, more, messages[1..], i - 1, j - 1, a);
      }
    }
  }

  function IndexOf(table: seq<Entry>, client: seq<Byte>): (k: nat)
    requires Lookup(table, client).Some?
    ensures k < |table| && table[k].client == client && Lookup(table, client) == Some(table[k].ipAddress)
  {
    if CheckHardwareAddress(table[0], client) then 0 else 1 + IndexOf(table[1..], client)
  }

  lemma {:induction false} GrantedToItsOwner(
      cfg: Config, table: seq<Entry>, messages: seq<Message>, j: nat, owner: seq<Byte>, a: Word)
    requires TableOk(table) && j < |Answers(cfg, table, messages)| && HasEntry(table, owner, a)
    requires Grants(Answers(cfg, table, messages)[j], a)
    ensures messages[j].client == owner
    decreases |messages|
  {
    hide TableOk, Recorded, Lookup, Respond;
    if j == 0 {
      EntryIsOwned(cfg, table, messages[0], owner, a);
    } else {
      MessageKeeps(cfg, table, messages[0]);
      var more := Recorded(cfg, table, messages[0]);
      assert Answers(cfg, table, messages)[j] == Answers(cfg, more, messages[1..])[j - 1];
      GrantedToItsOwner(cfg, more, messages[1..], j - 1, owner, a);
    }
  }

  // ---------- runs of a server that starts with an empty table ----------

  /** What an OFFER of the run had promised is all that it acknowledges. */
  lemma {:induction false} AckFollowsOffer(
      cfg: Config, table: seq<Entry>, messages: seq<Message>, j: nat, a: Word) returns (i: nat)
    requires TableOk(table) && j < |Answers(cfg, table, messages)|
    requires Answers(cfg, table, messages)[j] == Answer(ACK, a) && Lookup(table, messages[j].client).None?
    ensures i < j && Answers(cfg, table, messages)[i] == Answer(OFFER, a)
    ensures messages[i].client == messages[j].client
    decreases |messages|
  {
    hide TableOk, Lookup;
    if j > 0 {
      hide Respond;
      var more, c := Recorded(cfg, table, messages[0]), messages[j].client;
      MessageKeeps(cfg, table, messages[0]);
      assert Answers(cfg, table, messages)[j] == Answers(cfg, more, messages[1..])[j - 1];
      if Lookup(more, c).None? {
        i := AckFollowsOffer(cfg, more, messages[1..], j - 1, a);
        i := i + 1;
      } else {
        var b := Lookup(more, c).value;
        KnownClientIsServed(cfg, more, messages[1..], j - 1, b);
        LookupAppended(table, more[|table|], c);
        i := 0;
      }
    } else {
      i := 0;
    }
  }

  ghost predicate OnlyMinimum(cfg: Config, table: seq<Entry>) {
    |table| <= 1 && forall k :: 0 <= k < |table| ==> table[k].ipAddress == cfg.minimum
  }

  lemma OnlyMinimumKept(cfg: Config, table: seq<Entry>, m: Message)
    requires OnlyMinimum(cfg, table)
    ensures OnlyMinimum(cfg, Recorded(cfg, table, m))
    ensures Respond(cfg, table, m).Answer? && Respond(cfg, table, m).kind != NAK ==>
              Respond(cfg, table, m).address == cfg.minimum
  {
    if Lookup(table, m.client).Some? {
      var k := IndexOf(table, m.client);
    }
    if |table| == 1 {
      assert CheckIpAddress(table[0], cfg.minimum);
    }
  }

  /** Starting empty, the server only ever grants the lowest address of its range. */
  lemma {:induction false} OnlyTheMinimumIsGranted(
      cfg: Config, table: seq<Entry>, messages: seq<Message>, j: nat, a: Word)
    requires OnlyMinimum(cfg, table) && j < |Answers(cfg, table, messages)|
    requires Grants(Answers(cfg, table, messages)[j], a)
    ensures a == cfg.minimum
    decreases |messages|
  {
    hide OnlyMinimum, Recorded, Lookup, Respond;
    OnlyMinimumKept(cfg, table, messages[0]);
    if j > 0 {
      var more := Recorded(cfg, table, messages[0]);
      assert Answers(cfg, table, messages)[j] == Answers(cfg, more, messages[1..])[j - 1];
      OnlyTheMinimumIsGranted(cfg, more, messages[1..], j - 1, a);
    }
  }

  /** So it serves one client: after an offer, the first DISCOVER of another client, or of one that names itself by
      no bytes, is the end of the service. */
  lemma OneClientIsServed(cfg: Config, messages: seq<Message>, i: nat, j: nat)
    requires i < j < |Answers(cfg, [], messages)| && cfg.minimum != cfg.maximum
    requires Answers(cfg, [], messages)[i].Answer? && Answers(cfg, [], messages)[i].kind == OFFER
    requires messages[j].kind == DISCOVER && (messages[j].client != messages[i].client || messages[j].client == [])
    ensures Answers(cfg, [], messages)[j] == Endless && |Answers(cfg, [], messages)| == j + 1
  {
    SecondClient(cfg, [], messages, i, j);
  }

  lemma OfferFills(cfg: Config, table: seq<Entry>, m: Message)
    requires OnlyMinimum(cfg, table) && Respond(cfg, table, m).Answer? && Respond(cfg, table, m).kind == OFFER
    ensures Recorded(cfg, table, m) == [Entry(cfg.minimum, m.client)]
  {
    if Lookup(table, m.client).Some? {
      var k := IndexOf(table, m.client);
      assert table == [table[0]];
    } else if table != [] {
      assert CheckIpAddress(table[0], cfg.minimum);
    }
  }

  lemma FullStaysFull(cfg: Config, owner: seq<Byte>, m: Message)
    ensures var table := [Entry(cfg.minimum, owner)];
            Recorded(cfg, table, m) == table
            && (m.kind == DISCOVER && (m.client != owner || m.client == []) && cfg.minimum != cfg.maximum ==>
                  Respond(cfg, table, m) == Endless)
  {
    var table := [Entry(cfg.minimum, owner)];
    assert CheckIpAddress(table[0], cfg.minimum);
    assert table[1..] == [];
  }

  lemma {:induction false} NewClientHangs(cfg: Config, owner: seq<Byte>, messages: seq<Message>, j: nat)
    requires cfg.minimum != cfg.maximum && j < |Answers(cfg, [Entry(cfg.minimum, owner)], messages)|
    requires messages[j].kind == DISCOVER && (messages[j].client != owner || messages[j].client == [])
    ensures var answers := Answers(cfg, [Entry(cfg.minimum, owner)], messages);
            answers[j] == Endless && |answers| == j + 1
    decreases |messages|
  {
    hide Recorded, Lookup, Respond;
    FullStaysFull(cfg, owner, messages[0]);
    if j > 0 {
      NewClientHangs(cfg, owner, messages[1..], j - 1);
    }
  }

  lemma {:induction false} SecondClient(cfg: Config, table: seq<Entry>, messages: seq<Message>, i: nat, j: nat)
    requires OnlyMinimum(cfg, table) && cfg.minimum != cfg.maximum
    requires i < j < |Answers(cfg, table, messages)|
    requires Answers(cfg, table, messages)[i].Answer? && Answers(cfg, table, messages)[i].kind == OFFER
    requires messages[j].kind == DISCOVER && (messages[j].client != messages[i].client || messages[j].client == [])
    ensures Answers(cfg, table, messages)[j] == Endless && |Answers(cfg, table, messages)| == j + 1
    decreases |messages|
  {
    hide OnlyMinimum, Recorded, Lookup, Respond;
    OnlyMinimumKept(cfg, table, messages[0]);
    var more := Recorded(cfg, table, messages[0]);
    assert Answers(cfg, table, messages)[j] == Answers(cfg, more, messages[1..])[j - 1];
    if i == 0 {
      OfferFills(cfg, table, messages[0]);
      NewClientHangs(cfg, messages[0].client, messages[1..], j - 1);
    } else {
      SecondClient(cfg, more, messages[1..], i - 1, j - 1);
    }
  }
}
