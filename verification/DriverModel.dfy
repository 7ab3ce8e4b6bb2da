/**
 * The driver of the build without operating system as a step machine: the request call, the two waiting loops
 * nested in it (response semaphore, packet queue), one SPI transaction, and the handling of one packet. The
 * clock, the hardware and the device answer arbitrarily.
 */
module DriverModel {
  import opened Words
  import opened Text
  import opened RequestIds

  datatype Build = OnModule | Bypass

  /** NETWORK_BUFFER_SIZE of the build. */
  function BufferSize(build: Build): nat {
    if build.OnModule? then 2500 else 1500 + 28 + 14
  }

  const SPI_MAX_BYTE_COUNT: nat := 2500
  const FIFO_COUNT: nat := 4
  const SPI_READ: Byte := 0x0B

  const WIFI_PS_ON: nat := 0x0109
  const WIFI_PS_OFF: nat := 0x010A
  const WIFI_EAP_SET_CERT: nat := 0x010F
  const EVENT_BASE: nat := 0x8000
  const WIFI_STATUS_EVENT: nat := 0x8101
  const WIFI_BYPASS_INPUT_EVENT: nat := 0x8102
  const DUMMY: seq<Byte> := [100, 117, 109, 109, 121]

  // ---------- state ----------

  /** Where a packet comes from: the request (by its number) it answers, or the device on its own. */
  datatype Origin = Unsolicited | Answer(request: nat)

  /** A network buffer: its address, its payload size, its contents up to capacity, and its history. */
  datatype Buffer = Buffer(id: nat, size: nat, data: seq<Byte>, origin: Origin)

  datatype Status = Error | Success

  /** What the caller of the current request handed over. */
  datatype Offer = Offer(response: seq<Byte>, size: nat)

  /** PendingRequest, the id counter and the power-save flag, with the history the claims speak of:
      requests issued, what the caller offered and the packet that answered. */
  datatype Ipc = Ipc(
    lastId: Word, pendingId: Word, sem: Word, response: seq<Byte>, responseSize: nat, powerSave: bool,
    api: nat, status: Status, issued: nat, offer: Offer, answer: Option<Buffer>)

  /** The transmit mailbox, the semaphore that wakes the SPI step, and the buffer it holds. */
  datatype Spi = Spi(tx: Option<seq<Byte>>, txLength: nat, txRx: Word, held: Option<Buffer>)

  /** Buffers created so far (their ids are 0, 1, 2, ...), freed, and handed to the network interface. */
  datatype Pool = Pool(created: nat, freed: seq<nat>, delivered: seq<nat>)

  datatype Pc = Idle | Waiting | Receiving(inRequest: bool) | Handling(inRequest: bool, buffer: Buffer)

  /** The place of an AssertAlways(false), or of a wait that nothing can end. */
  datatype Hang = PendingNotReset | SendFailed | UnknownWiFiStatus | QueueFull

  datatype State = State(build: Build, ipc: Ipc, spi: Spi, fifo: seq<Buffer>, pool: Pool, pc: Pc, hang: Option<Hang>)

  // ---------- inputs ----------

  /** The answers of the hardware to one SPI transaction. */
  datatype Transaction = Transaction(
    notifyHigh: bool, flow0: bool, header: Option<SlaveHeader>, flow1: bool, transferOk: bool,
    contents: seq<Byte>, origin: Origin)

  datatype SlaveHeader = SlaveHeader(kind: Byte, len: nat, lenx: nat)

  /** One turn of a waiting loop: whether the clock has run out, the interrupts that came in, the hardware's
      answers, and whether the network interface has registered its callback. */
  datatype Tick = Tick(expired: bool, interrupts: nat, transaction: Transaction, netlink: bool)

  datatype Event =
    | Request(command: seq<Byte>, response: seq<Byte>, size: nat)
    | Poll
    | Turn(tick: Tick)

  // ---------- request ----------

  predicate CommandAllowed(build: Build, api: nat, size: nat) {
    (api == WIFI_EAP_SET_CERT && size < 2500) || size <= BufferSize(build)
  }

  /** sendImp: the mailbox is overwritten; false when the length is over the SPI limit. */
  function Send(s: State, data: seq<Byte>): (State, bool) {
    if SPI_MAX_BYTE_COUNT < |data| then (s, false)
    else (s.(spi := s.spi.(tx := Some(data), txLength := |data|, txRx := Wrap(s.spi.txRx + 1))), true)
  }

  function PowerSaveAfter(ipc: Ipc): bool {
    if ipc.api == WIFI_PS_ON then true else if ipc.api == WIFI_PS_OFF then false else ipc.powerSave
  }

  /** The end of a request call. */
  function Finish(s: State, status: Status): State {
    s.(ipc := s.ipc.(status := status, powerSave := PowerSaveAfter(s.ipc)), pc := Idle)
  }

  /** The request's own fields once its identifier is drawn. */
  function Armed(ipc: Ipc, command: seq<Byte>, response: seq<Byte>, size: nat): Ipc
    requires |command| >= HEADER_SIZE
  {
    var id := Next(ipc.lastId);
    ipc.(lastId := id, pendingId := id, response := response, responseSize := size, api := GetApiId(command),
         issued := ipc.issued + 1, offer := Offer(response, size), answer := None)
  }

  function BeginRequest(s: State, command: seq<Byte>, response: seq<Byte>, size: nat): State
    requires |command| >= HEADER_SIZE
  {
    if !CommandAllowed(s.build, GetApiId(command), |command|) then
      Finish(s.(ipc := s.ipc.(api := GetApiId(command))), Error)
    else if s.ipc.pendingId != RESET then s.(hang := Some(PendingNotReset))
    else
      var armed := s.(ipc := Armed(s.ipc, command, response, size));
      var woken := if s.ipc.powerSave then Send(armed, DUMMY).0 else armed;
      var (sent, ok) := Send(woken, WithReqId(command, armed.ipc.pendingId));
      if ok then sent.(pc := Waiting) else sent.(hang := Some(SendFailed))
  }

  // ---------- one SPI transaction ----------

  /** exchangeHeaders: the length the device announces, if its header is sound and there is anything to move. */
  function ExchangeHeaders(txLength: nat, header: Option<SlaveHeader>): Option<nat> {
    match header
    case None => None
    case Some(h) =>
      if h.kind != SPI_READ || h.len + h.lenx != 0xFFFF || (txLength == 0 && h.len == 0) then None
      else Some(h.len)
  }

  function Max(a: nat, b: nat): nat {
    if a > b then a else b
  }

  /** The data phase: what is clocked, and whether a receive buffer is given. */
  datatype Transfer = Transfer(send: Option<seq<Byte>>, receive: bool, length: nat)

  /** The data phase the transaction comes to, if it gets that far. */
  function TransferOf(s: State, t: Transaction): Option<(Transfer, nat)>
    requires s.spi.held.Some?
  {
    if (s.spi.tx.None? && !t.notifyHigh) || !t.flow0 then None
    else
      match ExchangeHeaders(s.spi.txLength, t.header)
      case None => None
      case Some(rx) =>
        if s.spi.held.value.size < rx || !t.flow1 then None
        else Some((Transfer(s.spi.tx, rx > 0, Max(s.spi.txLength, rx)), rx))
  }

  function Allocate(s: State): State {
    if s.spi.held.Some? then s
    else
      var b := Buffer(s.pool.created, BufferSize(s.build), [], Unsolicited);
      s.(spi := s.spi.(held := Some(b)), pool := s.pool.(created := s.pool.created + 1))
  }

  /** Input: the filled buffer goes to the queue; with a full queue the put never returns. */
  function Enqueue(s: State, b: Buffer): State {
    if |s.fifo| >= FIFO_COUNT then s.(hang := Some(QueueFull))
    else s.(fifo := s.fifo + [b], spi := s.spi.(held := None))
  }

  /** The part of the transaction once the step is woken. */
  function Transact(s: State, t: Transaction): State
    requires s.spi.held.Some?
  {
    match TransferOf(s, t)
    case None => s
    case Some((transfer, rx)) =>
      var sent := s.(spi := s.spi.(tx := None, txLength := 0));
      if !t.transferOk || rx == 0 then sent
      else Enqueue(sent, s.spi.held.value.(size := rx, data := t.contents, origin := t.origin))
  }

  /** processPollingDataImp */
  function SpiStep(s0: State, t: Transaction): State {
    var s := Allocate(s0);
    if s.spi.txRx == 0 then s else Transact(s.(spi := s.spi.(txRx := s.spi.txRx - 1)), t)
  }

  // ---------- one packet ----------

  function Free(s: State, b: Buffer): State {
    s.(pool := s.pool.(freed := s.pool.freed + [b.id]))
  }

  /** The caller's buffer after an answer: as many bytes after the header as both sides have. */
  function Filled(offer: Offer, b: Buffer): Offer
    requires HEADER_SIZE <= b.size <= |b.data| && offer.size <= |offer.response|
  {
    if offer.size == 0 then offer
    else
      var n := if offer.size < b.size - HEADER_SIZE then offer.size else b.size - HEADER_SIZE;
      Offer(b.data[HEADER_SIZE..HEADER_SIZE + n] + offer.response[n..], n)
  }

  /**
   * What the caller finds after an answer: as many bytes as both sides have, taken from after the six bytes of the
   * header; the rest of the buffer is as it was.
   */
  predicate AnswerCopied(offer: Offer, b: Buffer, got: Offer) {
    && |got.response| == |offer.response|
    && 6 <= b.size <= |b.data| && offer.size <= |offer.response|
    && got.size == (if offer.size <= b.size - 6 then offer.size else b.size - 6)
    && (forall k :: 0 <= k < got.size ==> got.response[k] == b.data[6 + k])
    && (forall k :: got.size <= k < |offer.response| ==> got.response[k] == offer.response[k])
  }

  lemma FilledIsCopied(offer: Offer, b: Buffer)
    requires HEADER_SIZE <= b.size <= |b.data| && offer.size <= |offer.response|
    ensures AnswerCopied(offer, b, Filled(offer, b))
  {
  }

  predicate BufferOk(build: Build, b: Buffer) {
    b.size <= BufferSize(build) == |b.data|
  }

  predicate OfferOk(s: State) {
    s.ipc.responseSize <= |s.ipc.response|
  }

  function ProcessResponse(s: State, b: Buffer): State
    requires BufferOk(s.build, b) && b.size >= HEADER_SIZE && OfferOk(s)
  {
    if s.ipc.pendingId != GetReqId(b.data) then Free(s, b)
    else
      var filled := Filled(Offer(s.ipc.response, s.ipc.responseSize), b);
      Free(s.(ipc := s.ipc.(response := filled.response, responseSize := filled.size, pendingId := RESET,
                            sem := Wrap(s.ipc.sem + 1), answer := Some(b))), b)
  }

  /** Little-endian length field of a network input event, after the interface number and 16 unused bytes. */
  function TotalLength(b: Buffer): nat
    requires |b.data| >= 1500
  {
    Short(b.data[HEADER_SIZE + 20], b.data[HEADER_SIZE + 21])
  }

  function ProcessEvent(s: State, b: Buffer, netlink: bool): State
    requires BufferOk(s.build, b) && b.size >= HEADER_SIZE
  {
    var api := GetApiId(b.data);
    if s.build.Bypass? && api == WIFI_BYPASS_INPUT_EVENT && netlink && TotalLength(b) > 0 then
      s.(pool := s.pool.(delivered := s.pool.delivered + [b.id]))
    else if api == WIFI_STATUS_EVENT && !(1 <= b.data[HEADER_SIZE] <= 5) then
      Free(s, b).(hang := Some(UnknownWiFiStatus))
    else Free(s, b)
  }

  predicate IsResponse(b: Buffer) {
    HEADER_SIZE <= b.size <= |b.data| && GetApiId(b.data) < EVENT_BASE
  }

  /** poll after the packet is taken from the queue. */
  function Handle(s: State, b: Buffer, netlink: bool): State
    requires BufferOk(s.build, b) && OfferOk(s)
  {
    if b.size < HEADER_SIZE then Free(s, b)
    else if GetApiId(b.data) < EVENT_BASE then ProcessResponse(s, b)
    else ProcessEvent(s, b, netlink)
  }

  // ---------- the machine ----------

  function Resume(inRequest: bool): Pc {
    if inRequest then Waiting else Idle
  }

  /** One turn of the loop of TakeSemaphore on the response semaphore. */
  function WaitTurn(s: State, expired: bool): State {
    if s.ipc.sem >= 1 then Finish(s.(ipc := s.ipc.(sem := s.ipc.sem - 1)), Success)
    else if expired then Finish(s.(ipc := s.ipc.(pendingId := RESET)), Error)
    else s.(pc := Receiving(true))
  }

  /** One turn of the loop of GetMessageQueue, with the SPI step as its hook. */
  function ReceiveTurn(s: State, inRequest: bool, tick: Tick): State {
    if s.fifo != [] then s.(fifo := s.fifo[1..], pc := Handling(inRequest, s.fifo[0]))
    else if tick.expired then s.(pc := Resume(inRequest))
    else SpiStep(s, tick.transaction)
  }

  function Interrupted(s: State, n: nat): State {
    s.(spi := s.spi.(txRx := Wrap(s.spi.txRx + n)))
  }

  /** What the types of the source promise about a state. */
  predicate WellTyped(s: State) {
    OfferOk(s) && (s.pc.Handling? ==> BufferOk(s.build, s.pc.buffer))
  }

  function TurnStep(s0: State, tick: Tick): State
    requires WellTyped(s0)
  {
    var s := Interrupted(s0, tick.interrupts);
    match s.pc
    case Idle => s
    case Waiting => WaitTurn(s, tick.expired)
    case Receiving(inRequest) => ReceiveTurn(s, inRequest, tick)
    case Handling(inRequest, b) => Handle(s, b, tick.netlink).(pc := Resume(inRequest))
  }

  /** Calls are made by the one caller there is, so only when the driver is idle; a hang is for ever. */
  function Step(s: State, e: Event): State
    requires WellTyped(s) && EventOk(e)
  {
    if s.hang.Some? then s
    else
      match e
      case Turn(tick) => TurnStep(s, tick)
      case Request(command, response, size) =>
        if s.pc.Idle? then BeginRequest(s, command, response, size) else s
      case Poll => if s.pc.Idle? then s.(pc := Receiving(false)) else s
  }

  /** The caller passes a command with its header and a response buffer as large as it says. */
  predicate EventOk(e: Event) {
    e.Request? ==> HEADER_SIZE <= |e.command| < 0x1_0000 && e.size <= |e.response| && e.size < 0x1_0000
  }

  function Initial(build: Build): State {
    State(build,
          Ipc(START, RESET, 0, [], 0, false, 0, Error, 0, Offer([], 0), None),
          Spi(None, 0, 0, None), [], Pool(0, [], []), Idle, None)
  }
}
