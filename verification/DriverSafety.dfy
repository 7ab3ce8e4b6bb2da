/** What every step of the driver keeps, and what follows for whole runs. */
module DriverSafety {
  import opened Words
  import opened Text
  import opened RequestIds
  import opened DriverModel

  // ---------- the device ----------

  /** An answer carries the identifier of a request that was sent, not a whole period of identifiers ago. The
      device may delay, drop, duplicate and reorder answers, and send events, as it likes. */
  predicate Genuine(b: Buffer, issued: nat) {
    IsResponse(b) ==>
      && b.origin.Answer?
      && b.origin.request < issued <= b.origin.request + PERIOD
      && GetReqId(b.data) == IdOf(b.origin.request)
  }

  predicate DeviceOk(build: Build, issued: nat, t: Transaction) {
    && |t.contents| == BufferSize(build)
    && (t.header.Some? ==> Genuine(Buffer(0, t.header.value.len, t.contents, t.origin), issued))
  }

  predicate Allowed(s: State, e: Event) {
    EventOk(e) && (e.Turn? ==> DeviceOk(s.build, s.ipc.issued, e.tick.transaction))
  }

  // ---------- the invariant ----------

  predicate InRequest(pc: Pc) {
    match pc
    case Idle => false
    case Waiting => true
    case Receiving(r) => r
    case Handling(r, _) => r
  }

  /** The packet answers the current request itself. */
  predicate OwnAnswer(ipc: Ipc, b: Buffer) {
    && IsResponse(b) && ipc.issued > 0
    && b.origin == Answer(ipc.issued - 1)
    && GetReqId(b.data) == IdOf(ipc.issued - 1)
  }

  predicate Unanswered(ipc: Ipc) {
    && ipc.issued > 0 && ipc.answer.None?
    && ipc.sem == 0 && ipc.pendingId == IdOf(ipc.issued - 1)
    && ipc.response == ipc.offer.response && ipc.responseSize == ipc.offer.size
  }

  predicate Answered(ipc: Ipc) {
    && ipc.offer.size <= |ipc.offer.response|
    && ipc.answer.Some? && OwnAnswer(ipc, ipc.answer.value)
    && ipc.sem == 1 && ipc.pendingId == RESET
    && Offer(ipc.response, ipc.responseSize) == Filled(ipc.offer, ipc.answer.value)
  }

  predicate Quiet(ipc: Ipc) {
    ipc.pendingId == RESET && ipc.sem == 0
  }

  predicate IpcInv(ipc: Ipc, pc: Pc) {
    && ipc.lastId == Counter(ipc.issued)
    && ipc.offer.size <= |ipc.offer.response|
    && ipc.responseSize <= |ipc.response|
    && (if pc.Waiting? then Unanswered(ipc) || Answered(ipc)
        else if InRequest(pc) then Unanswered(ipc)
        else Quiet(ipc))
  }

  predicate PacketOk(build: Build, issued: nat, b: Buffer) {
    BufferOk(build, b) && b.size > 0 && Genuine(b, issued)
  }

  /** At most one packet is ever queued, and only inside the receive loop. */
  predicate QueueInv(build: Build, issued: nat, fifo: seq<Buffer>, pc: Pc) {
    && |fifo| <= (if pc.Receiving? then 1 else 0)
    && (|fifo| > 0 ==> PacketOk(build, issued, fifo[0]))
    && (pc.Handling? ==> PacketOk(build, issued, pc.buffer))
  }

  predicate MailboxInv(build: Build, spi: Spi) {
    && (spi.tx.None? <==> spi.txLength == 0)
    && (spi.tx.Some? ==> |spi.tx.value| == spi.txLength <= SPI_MAX_BYTE_COUNT)
    && (spi.held.Some? ==> spi.held.value.size == BufferSize(build))
  }

  function Ids(fifo: seq<Buffer>): multiset<nat> {
    if fifo == [] then multiset{} else multiset{fifo[0].id} + Ids(fifo[1..])
  }

  function IdOfHeld(held: Option<Buffer>): multiset<nat> {
    if held.Some? then multiset{held.value.id} else multiset{}
  }

  function IdOfHandled(pc: Pc): multiset<nat> {
    if pc.Handling? then multiset{pc.buffer.id} else multiset{}
  }

  /** Every place a buffer can be in. */
  function Places(pool: Pool, fifo: seq<Buffer>, held: Option<Buffer>, pc: Pc): multiset<nat> {
    multiset(pool.freed) + multiset(pool.delivered) + Ids(fifo) + IdOfHeld(held) + IdOfHandled(pc)
  }

  function Upto(n: nat): multiset<nat> {
    if n == 0 then multiset{} else Upto(n - 1) + multiset{n - 1}
  }

  /** Buffers are conserved: each one created is in exactly one place. */
  predicate PoolInv(pool: Pool, fifo: seq<Buffer>, held: Option<Buffer>, pc: Pc) {
    Places(pool, fifo, held, pc) == Upto(pool.created)
  }

  predicate HangInv(hang: Option<Hang>) {
    hang.None? || hang == Some(UnknownWiFiStatus)
  }

  predicate Inv(s: State) {
    && IpcInv(s.ipc, s.pc)
    && QueueInv(s.build, s.ipc.issued, s.fifo, s.pc)
    && MailboxInv(s.build, s.spi)
    && PoolInv(s.pool, s.fifo, s.spi.held, s.pc)
    && HangInv(s.hang)
  }

  lemma InitialInv(build: Build)
    ensures Inv(Initial(build))
  {
  }

  // ---------- request ----------

  lemma SendFits(build: Build, command: seq<Byte>)
    requires |command| >= HEADER_SIZE && CommandAllowed(build, GetApiId(command), |command|)
    ensures |command| <= SPI_MAX_BYTE_COUNT
  {
  }

  lemma CounterStep(n: nat)
    ensures Counter(n + 1) == Next(Counter(n))
  {
  }

  lemma IdleQueue(build: Build, issued: nat, more: nat, fifo: seq<Buffer>, pc: Pc)
    requires QueueInv(build, issued, fifo, Idle) && (pc.Idle? || pc.Waiting?)
    ensures QueueInv(build, more, fifo, pc)
  {
  }

  lemma BeginKeepsInv(s: State, command: seq<Byte>, response: seq<Byte>, size: nat)
    requires Inv(s) && s.pc.Idle? && s.hang.None? && EventOk(Request(command, response, size))
    ensures Inv(BeginRequest(s, command, response, size))
    ensures BeginRequest(s, command, response, size).hang.None?
  {
    hide WithReqId, Wrap, Counter, Next, GetApiId, Upto, Places, QueueInv;
    var s' := BeginRequest(s, command, response, size);
    assert Places(s.pool, s.fifo, s.spi.held, s'.pc) == Places(s.pool, s.fifo, s.spi.held, Idle) by {
      if CommandAllowed(s.build, GetApiId(command), |command|) { SendFits(s.build, command); }
      PlacesIgnoresPc(s.pool, s.fifo, s.spi.held, s'.pc);
    }
    IdleQueue(s.build, s.ipc.issued, s'.ipc.issued, s.fifo, s'.pc);
    if CommandAllowed(s.build, GetApiId(command), |command|) {
      SendFits(s.build, command);
      CounterStep(s.ipc.issued);
    }
  }

  lemma PlacesIgnoresPc(pool: Pool, fifo: seq<Buffer>, held: Option<Buffer>, pc: Pc)
    requires !pc.Handling?
    ensures Places(pool, fifo, held, pc) == Places(pool, fifo, held, Idle)
  {
  }

  // ---------- turns ----------

  lemma PoolIgnoresPc(pool: Pool, fifo: seq<Buffer>, held: Option<Buffer>, pc: Pc, pc': Pc)
    requires PoolInv(pool, fifo, held, pc) && !pc.Handling? && !pc'.Handling?
    ensures PoolInv(pool, fifo, held, pc')
  {
    PlacesIgnoresPc(pool, fifo, held, pc);
    PlacesIgnoresPc(pool, fifo, held, pc');
  }

  lemma WaitKeepsIpc(s: State, expired: bool)
    requires IpcInv(s.ipc, Waiting)
    ensures IpcInv(WaitTurn(s, expired).ipc, WaitTurn(s, expired).pc)
  {
    hide Counter, IdOf, GetReqId, GetApiId, Filled, OwnAnswer;
  }

  lemma WaitKeepsInv(s: State, expired: bool)
    requires Inv(s) && s.pc.Waiting?
    ensures Inv(WaitTurn(s, expired))
  {
    WaitKeepsIpc(s, expired);
    PoolIgnoresPc(s.pool, s.fifo, s.spi.held, Waiting, WaitTurn(s, expired).pc);
    hide IpcInv, PoolInv, MailboxInv, HangInv, PacketOk;
  }

  lemma InterruptKeepsInv(s: State, n: nat)
    requires Inv(s)
    ensures Inv(Interrupted(s, n))
  {
    hide IpcInv, QueueInv, PoolInv, HangInv;
  }

  lemma IdsSmall(b: Buffer)
    ensures Ids([]) == multiset{} && Ids([b]) == multiset{b.id}
  {
    assert [b][1..] == [];
  }

  lemma AllocateKeepsPool(s: State)
    requires PoolInv(s.pool, s.fifo, s.spi.held, s.pc)
    ensures var s' := Allocate(s); PoolInv(s'.pool, s'.fifo, s'.spi.held, s'.pc)
  {
    hide Ids, IdOfHandled;
    if s.spi.held.None? {
      var s' := Allocate(s);
      assert Places(s'.pool, s.fifo, s'.spi.held, s.pc)
          == Places(s.pool, s.fifo, s.spi.held, s.pc) + multiset{s.pool.created};
    }
  }

  lemma AllocateKeepsInv(s: State)
    requires Inv(s)
    ensures Inv(Allocate(s)) && Allocate(s).spi.held.Some?
  {
    AllocateKeepsPool(s);
    hide IpcInv, QueueInv, PoolInv, HangInv;
  }

  lemma EnqueueKeepsInv(s: State, b: Buffer)
    requires Inv(s) && s.pc.Receiving? && s.fifo == [] && s.spi.held.Some? && s.spi.held.value.id == b.id
    requires PacketOk(s.build, s.ipc.issued, b)
    ensures Inv(Enqueue(s, b)) && Enqueue(s, b).hang == s.hang
  {
    hide IpcInv, HangInv, PacketOk, Ids, Upto;
    IdsSmall(b);
    var s' := Enqueue(s, b);
    assert s'.fifo == [b];
    assert Places(s.pool, [b], None, s.pc) == Places(s.pool, [], s.spi.held, s.pc);
  }

  lemma MailboxTaken(build: Build, spi: Spi)
    requires MailboxInv(build, spi) && spi.txRx > 0
    ensures MailboxInv(build, spi.(txRx := spi.txRx - 1))
  {
  }

  lemma MailboxEmptied(build: Build, spi: Spi)
    requires MailboxInv(build, spi)
    ensures MailboxInv(build, spi.(tx := None, txLength := 0))
  {
  }

  /** What gets as far as the data phase announced a length the held buffer has room for. */
  lemma TransferIsAnnounced(s: State, t: Transaction)
    requires s.spi.held.Some? && TransferOf(s, t).Some?
    ensures var rx := TransferOf(s, t).value.1;
            t.header.Some? && t.header.value.len == rx <= s.spi.held.value.size
  {
  }

  lemma TransactKeepsInv(s: State, t: Transaction)
    requires Inv(s) && s.pc.Receiving? && s.fifo == [] && s.hang.None? && s.spi.held.Some?
    requires DeviceOk(s.build, s.ipc.issued, t)
    ensures Inv(Transact(s, t)) && Transact(s, t).hang.None?
  {
    assert s.spi.held.value.size == BufferSize(s.build);
    hide IpcInv, QueueInv, PoolInv, HangInv, MailboxInv, Enqueue, DeviceOk, TransferOf;
    match TransferOf(s, t)
    case None =>
    case Some((transfer, rx)) =>
      var sent := s.(spi := s.spi.(tx := None, txLength := 0));
      MailboxEmptied(s.build, s.spi);
      if t.transferOk && rx > 0 {
        var b := s.spi.held.value.(size := rx, data := t.contents, origin := t.origin);
        TransferIsAnnounced(s, t);
        ReceivedIsOk(s, t, b, rx);
        EnqueueKeepsInv(sent, b);
      }
  }

  lemma SpiStepKeepsInv(s: State, t: Transaction)
    requires Inv(s) && s.pc.Receiving? && s.fifo == [] && s.hang.None?
    requires DeviceOk(s.build, s.ipc.issued, t)
    ensures Inv(SpiStep(s, t)) && SpiStep(s, t).hang.None?
  {
    hide Inv, Transact, DeviceOk;
    AllocateKeepsInv(s);
    var a := Allocate(s);
    if a.spi.txRx > 0 {
      WakingKeepsInv(a);
      TransactKeepsInv(a.(spi := a.spi.(txRx := a.spi.txRx - 1)), t);
    }
  }

  lemma WakingKeepsInv(s: State)
    requires Inv(s) && s.spi.txRx > 0
    ensures Inv(s.(spi := s.spi.(txRx := s.spi.txRx - 1)))
  {
    MailboxTaken(s.build, s.spi);
    hide IpcInv, QueueInv, PoolInv, HangInv, MailboxInv;
  }

  lemma ReceivedIsOk(s: State, t: Transaction, b: Buffer, rx: nat)
    requires DeviceOk(s.build, s.ipc.issued, t) && t.header.Some? && t.header.value.len == rx && 0 < rx <= BufferSize(s.build)
    requires b.size == rx && b.data == t.contents && b.origin == t.origin
    ensures PacketOk(s.build, s.ipc.issued, b)
  {
    hide GetReqId, GetApiId, IdOf;
  }

  lemma TakePacketKeepsInv(s: State)
    requires Inv(s) && s.pc.Receiving? && s.fifo != []
    ensures Inv(s.(fifo := s.fifo[1..], pc := Handling(s.pc.inRequest, s.fifo[0])))
  {
    hide MailboxInv, HangInv, PacketOk, Upto, Unanswered, Answered, Quiet;
    assert Ids(s.fifo) == multiset{s.fifo[0].id} + Ids(s.fifo[1..]);
    hide Ids;
    assert Places(s.pool, s.fifo[1..], s.spi.held, Handling(s.pc.inRequest, s.fifo[0]))
        == Places(s.pool, s.fifo, s.spi.held, s.pc);
  }

  lemma ReceiveKeepsInv(s: State, tick: Tick)
    requires Inv(s) && s.pc.Receiving? && DeviceOk(s.build, s.ipc.issued, tick.transaction) && s.hang.None?
    ensures Inv(ReceiveTurn(s, s.pc.inRequest, tick))
  {
    if s.fifo != [] {
      TakePacketKeepsInv(s);
    } else if tick.expired {
      PlacesIgnoresPc(s.pool, s.fifo, s.spi.held, s.pc);
      PlacesIgnoresPc(s.pool, s.fifo, s.spi.held, Resume(s.pc.inRequest));
      hide MailboxInv, HangInv, Places, Unanswered, Answered, Quiet;
    } else {
      SpiStepKeepsInv(s, tick.transaction);
    }
  }

  // ---------- packets ----------

  /** A genuine answer whose identifier is pending answers the current request, not an earlier one. */
  lemma {:induction false} MatchIsOwn(ipc: Ipc, b: Buffer)
    requires Genuine(b, ipc.issued) && IsResponse(b) && Unanswered(ipc)
    ensures ipc.pendingId == GetReqId(b.data) <==> b.origin == Answer(ipc.issued - 1)
  {
    hide IdOf, GetReqId;
    if ipc.pendingId == GetReqId(b.data) {
      Distinct(b.origin.request, ipc.issued - 1);
    }
  }

  /** With nothing pending no answer matches. */
  lemma QuietMatchesNothing(ipc: Ipc, b: Buffer)
    requires Genuine(b, ipc.issued) && IsResponse(b) && Quiet(ipc)
    ensures ipc.pendingId != GetReqId(b.data)
  {
    hide IdOf, GetReqId;
    NeverReset(b.origin.request);
  }

  /** The packet handled ends up freed or delivered. */
  lemma HandledGoes(pool: Pool, pool': Pool, held: Option<Buffer>, pc: Pc)
    requires pc.Handling? && pool'.created == pool.created
    requires || (pool'.freed == pool.freed + [pc.buffer.id] && pool'.delivered == pool.delivered)
             || (pool'.freed == pool.freed && pool'.delivered == pool.delivered + [pc.buffer.id])
    requires PoolInv(pool, [], held, pc)
    ensures PoolInv(pool', [], held, Resume(pc.inRequest))
  {
    hide Ids, IdOfHeld, Upto;
    assert Places(pool', [], held, Resume(pc.inRequest)) == Places(pool, [], held, pc);
  }

  lemma FilledFits(offer: Offer, b: Buffer)
    requires HEADER_SIZE <= b.size <= |b.data| && offer.size <= |offer.response|
    ensures Filled(offer, b).size <= |Filled(offer, b).response| == |offer.response|
  {
  }

  lemma ResponseKeepsIpc(s: State)
    requires s.pc.Handling? && IpcInv(s.ipc, s.pc) && PacketOk(s.build, s.ipc.issued, s.pc.buffer)
    requires IsResponse(s.pc.buffer)
    ensures IpcInv(ProcessResponse(s, s.pc.buffer).ipc, Resume(s.pc.inRequest))
  {
    hide Counter, GetReqId, GetApiId, IdOf, Filled, Genuine;
    if s.pc.inRequest {
      PendingAnswered(s);
    } else {
      QuietMatchesNothing(s.ipc, s.pc.buffer);
    }
  }

  /** In a request the answer handled is taken if it is the request's own, and nothing changes if it is not. */
  lemma PendingAnswered(s: State)
    requires s.pc.Handling? && s.pc.inRequest && Unanswered(s.ipc) && OfferOk(s)
    requires PacketOk(s.build, s.ipc.issued, s.pc.buffer) && IsResponse(s.pc.buffer)
    ensures var ipc := ProcessResponse(s, s.pc.buffer).ipc;
            && ipc.lastId == s.ipc.lastId && ipc.issued == s.ipc.issued && ipc.offer == s.ipc.offer
            && ipc.responseSize <= |ipc.response|
            && (if s.pc.buffer.origin == Answer(s.ipc.issued - 1) then Answered(ipc) else ipc == s.ipc)
  {
    hide Counter, GetReqId, GetApiId, IdOf, Filled, Genuine;
    MatchIsOwn(s.ipc, s.pc.buffer);
    FilledFits(s.ipc.offer, s.pc.buffer);
  }

  lemma HandleKeepsInv(s: State, netlink: bool)
    requires Inv(s) && s.pc.Handling? && s.hang.None?
    ensures Inv(Handle(s, s.pc.buffer, netlink).(pc := Resume(s.pc.inRequest)))
  {
    hide GetReqId, GetApiId, Genuine, MailboxInv, PoolInv, Filled, TotalLength;
    var b := s.pc.buffer;
    var s' := Handle(s, b, netlink);
    assert s.fifo == [];
    HandledGoes(s.pool, s'.pool, s.spi.held, s.pc);
    if IsResponse(b) {
      ResponseKeepsIpc(s);
    }
    hide Unanswered, Answered, Quiet, PacketOk;
  }

  // ---------- steps and runs ----------

  lemma InvWellTyped(s: State)
    requires Inv(s)
    ensures WellTyped(s)
  {
    hide Unanswered, Answered, Quiet, Genuine, MailboxInv, PoolInv;
  }

  lemma PollKeepsInv(s: State)
    requires Inv(s) && s.pc.Idle?
    ensures Inv(s.(pc := Receiving(false)))
  {
    PlacesIgnoresPc(s.pool, s.fifo, s.spi.held, Receiving(false));
    hide Places, MailboxInv, Quiet;
  }

  /** Every step keeps the invariant. */
  lemma StepKeepsInv(s: State, e: Event)
    requires Inv(s) && Allowed(s, e)
    ensures WellTyped(s) && Inv(Step(s, e))
  {
    InvWellTyped(s);
    hide Inv, BeginRequest, WaitTurn, ReceiveTurn, Handle;
    if s.hang.None? {
      match e
      case Turn(tick) =>
        var i := Interrupted(s, tick.interrupts);
        InterruptKeepsInv(s, tick.interrupts);
        match s.pc {
          case Idle =>
          case Waiting => WaitKeepsInv(i, tick.expired);
          case Receiving(_) => ReceiveKeepsInv(i, tick);
          case Handling(_, _) => HandleKeepsInv(i, tick.netlink);
        }
      case Request(command, response, size) =>
        if s.pc.Idle? { BeginKeepsInv(s, command, response, size); }
      case Poll =>
        if s.pc.Idle? { PollKeepsInv(s); }
    }
  }
}
