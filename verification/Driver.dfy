/**
 * The driver as the source has it: static fields updated by nested calls and waiting loops. Each method is proved
 * to do one step, or a whole run of turns, of the step machine.
 */
module Driver {
  import opened Words
  import opened Text
  import opened RequestIds
  import Q = MessageQueue
  import opened DriverModel
  import opened DriverSafety

  // ---------- runs of turns ----------

  /** The device keeps to its side in every turn. */
  predicate TicksOk(build: Build, issued: nat, ticks: seq<Tick>) {
    forall k :: 0 <= k < |ticks| ==> DeviceOk(build, issued, ticks[k].transaction)
  }

  lemma TurnKeeps(s: State, tick: Tick)
    requires Inv(s) && DeviceOk(s.build, s.ipc.issued, tick.transaction)
    ensures WellTyped(s)
    ensures var r := Step(s, Turn(tick)); Inv(r) && r.build == s.build && r.ipc.issued == s.ipc.issued
  {
    hide Inv, DeviceOk;
    StepKeepsInv(s, Turn(tick));
    hide Filled, GetReqId, GetApiId, TotalLength;
  }

  lemma TickIsOk(build: Build, issued: nat, ticks: seq<Tick>, k: nat)
    requires TicksOk(build, issued, ticks) && k < |ticks|
    ensures DeviceOk(build, issued, ticks[k].transaction)
  {
  }

  /** One turn. */
  function OneTurn(s: State, tick: Tick): (r: State)
    requires Inv(s) && DeviceOk(s.build, s.ipc.issued, tick.transaction)
    ensures Inv(r) && r.build == s.build && r.ipc.issued == s.ipc.issued
  {
    TurnKeeps(s, tick);
    Step(s, Turn(tick))
  }

  /** The turns from start on, up to next. */
  function Turns(s: State, ticks: seq<Tick>, start: nat, next: nat): (r: State)
    requires Inv(s) && TicksOk(s.build, s.ipc.issued, ticks) && start <= next <= |ticks|
    ensures Inv(r) && r.build == s.build && r.ipc.issued == s.ipc.issued
    decreases next - start
  {
    if start == next then s else OneTurn(Turns(s, ticks, start, next - 1), ticks[next - 1])
  }

  // ---------- a call comes to an end ----------

  predicate Over(s: State) {
    s.pc.Idle? || s.hang.Some?
  }

  /** The turns a call still needs at most once the clock has run out. */
  function TurnsLeft(s: State): (n: nat)
    ensures n <= 3 && (n == 0 <==> Over(s))
  {
    if Over(s) then 0
    else
      match s.pc
      case Waiting => 1
      case Receiving(_) => if s.fifo == [] then 2 else 3
      case Handling(_, _) => 2
  }

  /** The clock has run out in three turns in a row. */
  predicate ExpiredFrom(ticks: seq<Tick>, j: nat) {
    j + 3 <= |ticks| && ticks[j].expired && ticks[j + 1].expired && ticks[j + 2].expired
  }

  lemma OverStays(s: State, tick: Tick)
    requires Inv(s) && DeviceOk(s.build, s.ipc.issued, tick.transaction) && Over(s)
    ensures Over(OneTurn(s, tick))
  {
    hide Inv, DeviceOk, Handle, SpiStep, BeginRequest;
  }

  lemma ExpiredTurn(s: State, tick: Tick)
    requires Inv(s) && DeviceOk(s.build, s.ipc.issued, tick.transaction) && tick.expired
    ensures TurnsLeft(OneTurn(s, tick)) <= if TurnsLeft(s) > 0 then TurnsLeft(s) - 1 else 0
  {
    hide Inv, DeviceOk, SpiStep, Wrap, OneTurn, Handle;
    if Over(s) {
      OverStays(s, tick);
    } else if s.pc.Waiting? {
      WaitingFacts(s, tick);
    } else if s.pc.Receiving? {
      ReceivingFacts(s, tick);
    } else {
      HandlingFacts(s, tick);
    }
  }

  lemma {:induction false} CallEnds(s: State, ticks: seq<Tick>, j: nat, next: nat)
    requires Inv(s) && TicksOk(s.build, s.ipc.issued, ticks) && ExpiredFrom(ticks, j) && j + 3 <= next <= |ticks|
    ensures Over(Turns(s, ticks, 0, next))
    decreases next
  {
    hide Inv, OneTurn, DeviceOk, Over, Turns, TurnsLeft;
    if next == j + 3 {
      var a, b, c := Turns(s, ticks, 0, j), Turns(s, ticks, 0, j + 1), Turns(s, ticks, 0, j + 2);
      TurnsNext(s, ticks, 0, j);
      TurnsNext(s, ticks, 0, j + 1);
      TurnsNext(s, ticks, 0, j + 2);
      ExpiredTurn(a, ticks[j]);
      ExpiredTurn(b, ticks[j + 1]);
      ExpiredTurn(c, ticks[j + 2]);
    } else {
      CallEnds(s, ticks, j, next - 1);
      TurnsNext(s, ticks, 0, next - 1);
      OverStays(Turns(s, ticks, 0, next - 1), ticks[next - 1]);
    }
  }

  // ---------- the driver ----------

  datatype Outcome = Returned | TimedOut | StillWaiting | Hung

  /** How a call ends: the caller is told the status, or is still waiting when the turns run out, or for ever. */
  predicate Ended(outcome: Outcome, status: Status, pc: Pc, hang: Option<Hang>, all: bool) {
    match outcome
    case Returned => pc.Idle? && status == Success
    case TimedOut => pc.Idle? && status == Error
    case StillWaiting => all && !pc.Idle? && hang.None?
    case Hung => hang.Some?
  }

  /** The buffer got is the one offered with the answer to the latest request filled in. */
  predicate HoldsAnswer(issued: nat, offer: Offer, answer: Option<Buffer>, got: Offer) {
    && issued > 0 && answer.Some? && IsResponse(answer.value)
    && answer.value.origin == Answer(issued - 1) && GetReqId(answer.value.data) == IdOf(issued - 1)
    && AnswerCopied(offer, answer.value, got)
  }

  /** When the semaphore is up the answer is in; when it is not, nothing has been written. */
  lemma WaitEnds(s: State)
    requires Inv(s) && s.pc.Waiting?
    ensures var ipc := s.ipc;
            var got := Offer(ipc.response, ipc.responseSize);
            if ipc.sem >= 1 then HoldsAnswer(ipc.issued, ipc.offer, ipc.answer, got) else got == ipc.offer
  {
    hide QueueInv, MailboxInv, PoolInv, Filled, AnswerCopied;
    if s.ipc.answer.Some? && s.ipc.offer.size <= |s.ipc.offer.response| && IsResponse(s.ipc.answer.value) {
      FilledIsCopied(s.ipc.offer, s.ipc.answer.value);
    }
  }

  class Driver {
    const build: Build
    /** Set between initialisation and shutdown. */
    const isUsable: bool
    const networkPacketFifo: Q.MessageQueue<Buffer>

    // EmwCoreIpc
    var reqId: Word
    var pendingReqId: Word
    var responseSem: Word
    var response: seq<Byte>
    var responseSize: nat
    var isPowerSaveEnabled: bool
    // EmwIoSpi
    var txDataAddress: Option<seq<Byte>>
    var txDataLength: nat
    var txRxSem: Word
    var heldBuffer: Option<Buffer>
    // the heap, as the addresses given out so far
    var created: nat

    // where the control is, and the history
    ghost var pc: Pc
    ghost var hang: Option<Hang>
    ghost var apiId: nat
    ghost var status: Status
    ghost var issued: nat
    ghost var offer: Offer
    ghost var answer: Option<Buffer>
    ghost var freed: seq<nat>
    ghost var delivered: seq<nat>

    ghost predicate Valid()
      reads this, networkPacketFifo
    {
      networkPacketFifo.Valid() && networkPacketFifo.elementCountMax == FIFO_COUNT
    }

    /** The state of the step machine the fields stand for. */
    ghost function Abs(): State
      reads this, networkPacketFifo, networkPacketFifo.fifo
      requires Valid()
    {
      State(build,
            Ipc(reqId, pendingReqId, responseSem, response, responseSize, isPowerSaveEnabled,
                apiId, status, issued, offer, answer),
            Spi(txDataAddress, txDataLength, txRxSem, heldBuffer),
            networkPacketFifo.Contents(), Pool(created, freed, delivered), pc, hang)
    }

    constructor (build: Build, usable: bool)
      ensures Valid() && Abs() == Initial(build) && this.build == build && isUsable == usable
      ensures fresh(networkPacketFifo) && fresh(networkPacketFifo.fifo)
    {
      this.build := build;
      isUsable := usable;
      var fifo := new Q.MessageQueue<Buffer>(FIFO_COUNT);
      networkPacketFifo := fifo;
      reqId, pendingReqId, responseSem, response, responseSize := START, RESET, 0, [], 0;
      isPowerSaveEnabled := false;
      txDataAddress, txDataLength, txRxSem, heldBuffer, created := None, 0, 0, None, 0;
      pc, hang, apiId, status, issued, offer, answer := Idle, None, 0, Error, 0, Offer([], 0), None;
      freed, delivered := [], [];
    }

    method GetNewReqId() returns (id: Word)
      modifies `reqId
      ensures reqId == id == Next(old(reqId))
    {
      reqId := Wrap(reqId + 1);
      if reqId == RESET {
        reqId := Wrap(reqId + 1);
      }
      id := reqId;
    }

    method SendImp(data: seq<Byte>) returns (sent: nat)
      requires Valid()
      modifies `txDataAddress, `txDataLength, `txRxSem
      ensures Abs() == Send(old(Abs()), data).0
      ensures Send(old(Abs()), data).1 <==> |data| <= SPI_MAX_BYTE_COUNT
      ensures sent == if |data| <= SPI_MAX_BYTE_COUNT then |data| else 0
    {
      hide Q.Ring, Wrap;
      if SPI_MAX_BYTE_COUNT < |data| {
        sent := 0;
      } else {
        txDataAddress := Some(data);
        txDataLength := |data|;
        txRxSem := Wrap(txRxSem + 1);
        sent := |data|;
      }
    }

    /** The interrupts that came in since the last turn. */
    method NotifyInterrupts(n: nat)
      requires Valid()
      modifies `txRxSem
      ensures Abs() == Interrupted(old(Abs()), n)
    {
      txRxSem := Wrap(txRxSem + n);
    }

    // ---------- one packet ----------

    method FreeBuffer(b: Buffer)
      requires Valid()
      modifies `freed
      ensures Abs() == Free(old(Abs()), b)
    {
      freed := freed + [b.id];
    }

    /** As much of the answer as the caller has room for. */
    method CopyAnswer(b: Buffer)
      requires Valid() && HEADER_SIZE <= b.size <= |b.data| && responseSize <= |response|
      modifies `response, `responseSize
      ensures AnswerCopied(Offer(old(response), old(responseSize)), b, Offer(response, responseSize))
      ensures Offer(response, responseSize) == Filled(Offer(old(response), old(responseSize)), b)
    {
      if 0 < responseSize {
        var bufferSize := b.size - HEADER_SIZE;
        var actualSize := if responseSize < bufferSize then responseSize else bufferSize;
        response := b.data[HEADER_SIZE..HEADER_SIZE + actualSize] + response[actualSize..];
        responseSize := actualSize;
      }
    }

    /** The pending request is answered. */
    method Complete(b: Buffer)
      requires Valid() && HEADER_SIZE <= b.size <= |b.data| && OfferOk(Abs())
      modifies `pendingReqId, `responseSem, `response, `responseSize, `answer
      ensures var ipc := old(Abs()).ipc;
              var filled := Filled(Offer(ipc.response, ipc.responseSize), b);
              Abs() == old(Abs()).(ipc := ipc.(response := filled.response, responseSize := filled.size,
                                               pendingId := RESET, sem := Wrap(ipc.sem + 1), answer := Some(b)))
    {
      hide Filled, Q.Ring, Wrap;
      CopyAnswer(b);
      pendingReqId := RESET;
      responseSem := Wrap(responseSem + 1);
      answer := Some(b);
    }

    method ProcessResponse(b: Buffer)
      requires Valid() && BufferOk(build, b) && b.size >= HEADER_SIZE && OfferOk(Abs())
      modifies `pendingReqId, `responseSem, `response, `responseSize, `answer, `freed
      ensures Abs() == DriverModel.ProcessResponse(old(Abs()), b)
    {
      hide GetReqId, Filled, Q.Ring, Wrap;
      if pendingReqId == GetReqId(b.data) {
        Complete(b);
      }
      FreeBuffer(b);
    }

    /** The dispatch table and its handlers; an unknown Wi-Fi status hangs the driver. */
    method ProcessEvent(b: Buffer, netlink: bool) returns (hung: bool)
      requires Valid() && BufferOk(build, b) && b.size >= HEADER_SIZE && hang.None?
      modifies `freed, `delivered, `hang
      ensures Abs() == DriverModel.ProcessEvent(old(Abs()), b, netlink) && hung == hang.Some?
    {
      hide GetApiId, TotalLength, Q.Ring;
      hung := false;
      var api := GetApiId(b.data);
      if build.Bypass? && api == WIFI_BYPASS_INPUT_EVENT {
        if netlink && 0 < TotalLength(b) {
          delivered := delivered + [b.id];
        } else {
          FreeBuffer(b);
        }
      } else if api == WIFI_STATUS_EVENT {
        FreeBuffer(b);
        if b.data[HEADER_SIZE] < 1 || 5 < b.data[HEADER_SIZE] {
          hang := Some(UnknownWiFiStatus);
          hung := true;
        }
      } else {
        FreeBuffer(b);
      }
    }

    /** The body of poll once a packet is there. */
    method HandlePacket(b: Buffer, netlink: bool) returns (hung: bool)
      requires Valid() && BufferOk(build, b) && OfferOk(Abs()) && hang.None?
      modifies `pendingReqId, `responseSem, `response, `responseSize, `answer, `freed, `delivered, `hang
      ensures Abs() == Handle(old(Abs()), b, netlink) && hung == hang.Some?
    {
      hung := false;
      hide DriverModel.ProcessResponse, DriverModel.ProcessEvent, GetApiId;
      if HEADER_SIZE <= b.size {
        if GetApiId(b.data) < EVENT_BASE {
          ProcessResponse(b);
        } else {
          hung := ProcessEvent(b, netlink);
        }
      } else {
        FreeBuffer(b);
      }
    }

    // ---------- one SPI transaction ----------

    /** Input: the queue is never full here, so waiting for ever for room is no matter. */
    method Input(b: Buffer)
      requires Valid() && |networkPacketFifo.Contents()| < FIFO_COUNT
      modifies `heldBuffer, networkPacketFifo, networkPacketFifo.fifo
      ensures Valid() && networkPacketFifo.fifo == old(networkPacketFifo.fifo)
      ensures Abs() == Enqueue(old(Abs()), b)
    {
      var put := networkPacketFifo.Put(b, []);
      heldBuffer := None;
    }

    /** The step always holds a buffer to receive into. */
    method HoldBuffer()
      requires Valid()
      modifies `heldBuffer, `created
      ensures Abs() == Allocate(old(Abs()))
    {
      if heldBuffer.None? {
        heldBuffer := Some(Buffer(created, BufferSize(build), [], Unsolicited));
        created := created + 1;
      }
    }

    method ExchangeData(t: Transaction)
      requires Valid() && |networkPacketFifo.Contents()| < FIFO_COUNT && heldBuffer.Some?
      modifies `heldBuffer, `txDataAddress, `txDataLength
      modifies networkPacketFifo, networkPacketFifo.fifo
      ensures Valid() && networkPacketFifo.fifo == old(networkPacketFifo.fifo)
      ensures Abs() == Transact(old(Abs()), t)
    {
      hide Enqueue, ExchangeHeaders;
      if txDataAddress.None? && !t.notifyHigh {
        return;
      }
      if !t.flow0 {
        return;
      }
      var header := ExchangeHeaders(txDataLength, t.header);
      if header.None? || heldBuffer.value.size < header.value || !t.flow1 {
        return;
      }
      var rxLength := header.value;
      txDataAddress := None;
      txDataLength := 0;
      if t.transferOk && 0 < rxLength {
        Input(heldBuffer.value.(size := rxLength, data := t.contents, origin := t.origin));
      }
    }

    method ProcessPollingData(t: Transaction)
      requires Valid() && |networkPacketFifo.Contents()| < FIFO_COUNT
      modifies `heldBuffer, `created, `txRxSem, `txDataAddress, `txDataLength
      modifies networkPacketFifo, networkPacketFifo.fifo
      ensures Valid() && networkPacketFifo.fifo == old(networkPacketFifo.fifo)
      ensures Abs() == SpiStep(old(Abs()), t)
    {
      hide Transact;
      HoldBuffer();
      if txRxSem != 0 {
        txRxSem := txRxSem - 1;
        ExchangeData(t);
      }
    }

    // ---------- the waiting loops ----------

    /** GetMessageQueue with the SPI step as its hook, from turn `start` on. */
    method Receive(ticks: seq<Tick>, start: nat) returns (next: nat, outcome: Outcome, packet: Option<Buffer>)
      requires Valid() && Inv(Abs()) && hang.None? && pc.Receiving?
      requires start <= |ticks| && TicksOk(build, issued, ticks)
      modifies this, networkPacketFifo, networkPacketFifo.fifo
      ensures Valid() && Inv(Abs()) && hang.None? && issued == old(issued) && apiId == old(apiId) && offer == old(offer)
      ensures networkPacketFifo.fifo == old(networkPacketFifo.fifo)
      ensures start <= next <= |ticks|
      ensures Abs() == Turns(old(Abs()), ticks, start, next)
      ensures outcome != Hung
      ensures outcome == StillWaiting ==> next == |ticks| && pc == old(pc)
      ensures outcome == TimedOut ==> pc == Resume(old(pc).inRequest)
      ensures outcome == Returned ==> packet.Some? && pc == Handling(old(pc).inRequest, packet.value)
    {
      hide Inv, DeviceOk, SpiStep, OneTurn, Turns, Q.Ring, Interrupted;
      next := start;
      ghost var s0 := Abs();
      ghost var before := pc;
      TurnsNone(s0, ticks, start);
      while next < |ticks|
        invariant Valid() && Inv(Abs()) && hang.None? && issued == old(issued) && apiId == old(apiId) && offer == old(offer)
        invariant networkPacketFifo.fifo == old(networkPacketFifo.fifo)
        invariant start <= next <= |ticks| && pc == before
        invariant Abs() == Turns(s0, ticks, start, next)
        decreases |ticks| - next
      {
        var tick := ticks[next];
        ghost var s := Abs();
        ReceivingFacts(s, tick);
        TurnsNext(s0, ticks, start, next);
        NotifyInterrupts(tick.interrupts);
        next := next + 1;
        if networkPacketFifo.elementCountIn != 0 {
          var b := networkPacketFifo.Pop();
          pc := Handling(before.inRequest, b);
          return next, Returned, Some(b);
        }
        if tick.expired {
          pc := Resume(before.inRequest);
          return next, TimedOut, None;
        }
        ProcessPollingData(tick.transaction);
      }
      return next, StillWaiting, None;
    }

    /** The turn in which the packet taken is handled. */
    method FinishPoll(b: Buffer, tick: Tick) returns (hung: bool)
      requires Valid() && Inv(Abs()) && hang.None? && pc.Handling? && pc.buffer == b
      requires DeviceOk(build, issued, tick.transaction)
      modifies this
      ensures Valid() && Inv(Abs()) && issued == old(issued) && apiId == old(apiId) && offer == old(offer)
      ensures Abs() == OneTurn(old(Abs()), tick)
      ensures pc == Resume(old(pc).inRequest) && hung == hang.Some?
    {
      hide Inv, DeviceOk, OneTurn, Q.Ring, Interrupted, Handle;
      ghost var inRequest := pc.inRequest;
      HandlingFacts(Abs(), tick);
      NotifyInterrupts(tick.interrupts);
      hung := HandlePacket(b, tick.netlink);
      pc := Resume(inRequest);
    }

    /** poll: the hook of the response semaphore, and what applications call in the background. */
    method PollOnce(ticks: seq<Tick>, start: nat) returns (next: nat, outcome: Outcome)
      requires Valid() && Inv(Abs()) && hang.None? && pc.Receiving?
      requires start <= |ticks| && TicksOk(build, issued, ticks)
      modifies this, networkPacketFifo, networkPacketFifo.fifo
      ensures Valid() && Inv(Abs()) && issued == old(issued) && apiId == old(apiId) && offer == old(offer)
      ensures networkPacketFifo.fifo == old(networkPacketFifo.fifo)
      ensures start <= next <= |ticks|
      ensures Abs() == Turns(old(Abs()), ticks, start, next)
      ensures outcome.Returned? ==> hang.None? && pc == Resume(old(pc).inRequest)
      ensures outcome.Returned? || (outcome.StillWaiting? && hang.None?) || (outcome.Hung? && hang.Some?)
      ensures outcome.StillWaiting? ==> next == |ticks| && !pc.Idle?
    {
      hide Inv, DeviceOk, OneTurn, Turns, Q.Ring, Interrupted;
      ghost var s0 := Abs();
      var packet;
      next, outcome, packet := Receive(ticks, start);
      if outcome.TimedOut? {
        outcome := Returned;
      } else if outcome.Returned? {
        if next == |ticks| {
          return next, StillWaiting;
        }
        TurnsNext(s0, ticks, start, next);
        var hung := FinishPoll(packet.value, ticks[next]);
        next := next + 1;
        outcome := if hung then Hung else Returned;
      }
    }

    /** One check of the response semaphore and of the clock; the caller finishes the turn in which the wait ends. */
    method CheckSemaphore(tick: Tick) returns (outcome: Outcome)
      requires Valid() && Inv(Abs()) && hang.None? && pc.Waiting? && DeviceOk(build, issued, tick.transaction)
      modifies `txRxSem, `responseSem, `pc
      ensures outcome.Returned? ==> HoldsAnswer(issued, offer, answer, Offer(response, responseSize))
      ensures outcome.TimedOut? ==> Offer(response, responseSize) == offer
      ensures var end := OneTurn(old(Abs()), tick);
              match outcome
              case Returned => Finish(Abs(), Success) == end
              case TimedOut => Finish(Abs().(ipc := Abs().ipc.(pendingId := RESET)), Error) == end
              case StillWaiting => Abs() == end && pc == Receiving(true)
              case Hung => false
    {
      hide Inv, DeviceOk, OneTurn, Q.Ring, Interrupted, Finish, HoldsAnswer;
      WaitingFacts(Abs(), tick);
      WaitEnds(Abs());
      NotifyInterrupts(tick.interrupts);
      if 1 <= responseSem {
        responseSem := responseSem - 1;
        outcome := Returned;
      } else if tick.expired {
        outcome := TimedOut;
      } else {
        pc := Receiving(true);
        outcome := StillWaiting;
      }
    }

    /** TakeSemaphore on the response semaphore, with poll as its hook. */
    method TakeResponseSemaphore(ticks: seq<Tick>) returns (next: nat, outcome: Outcome)
      requires Valid() && Inv(Abs()) && hang.None? && pc.Waiting? && TicksOk(build, issued, ticks)
      modifies this, networkPacketFifo, networkPacketFifo.fifo
      ensures Valid() && issued == old(issued) && apiId == old(apiId) && offer == old(offer)
      ensures next <= |ticks|
      ensures outcome.Returned? ==> HoldsAnswer(issued, offer, answer, Offer(response, responseSize))
      ensures outcome.TimedOut? ==> Offer(response, responseSize) == offer
      ensures var end := Turns(old(Abs()), ticks, 0, next);
              match outcome
              case Returned => Finish(Abs(), Success) == end
              case TimedOut => Finish(Abs().(ipc := Abs().ipc.(pendingId := RESET)), Error) == end
              case StillWaiting => Abs() == end && next == |ticks| && !Over(Abs())
              case Hung => Abs() == end && hang.Some?
    {
      hide Inv, DeviceOk, TicksOk, OneTurn, Turns, Q.Ring, Finish, HoldsAnswer;
      next := 0;
      ghost var s0 := Abs();
      TurnsNone(s0, ticks, 0);
      while next < |ticks|
        invariant Valid() && Inv(Abs()) && hang.None? && issued == old(issued) && apiId == old(apiId)
        invariant offer == old(offer) && pc.Waiting?
        invariant networkPacketFifo.fifo == old(networkPacketFifo.fifo)
        invariant 0 <= next <= |ticks| && Abs() == Turns(s0, ticks, 0, next)
        decreases |ticks| - next
      {
        TickIsOk(build, issued, ticks, next);
        TurnsNext(s0, ticks, 0, next);
        outcome := CheckSemaphore(ticks[next]);
        next := next + 1;
        if !outcome.StillWaiting? {
          return;
        }
        ghost var from := next;
        next, outcome := PollOnce(ticks, next);
        TurnsCompose(s0, ticks, 0, from, next);
        if !outcome.Returned? {
          return;
        }
      }
      outcome := StillWaiting;
    }

    /** AssertAlways: a false condition would stop the driver for ever. */
    method AssertAlways(condition: bool)
      requires condition
    {
    }

    /** The pending record. */
    method Pend(id: Word, response: seq<Byte>, size: nat)
      requires Valid()
      modifies `pendingReqId, `response, `responseSize
      ensures var s := old(Abs());
              Abs() == s.(ipc := s.ipc.(pendingId := id, response := response, responseSize := size))
      ensures pendingReqId == id
    {
      hide Q.Ring;
      pendingReqId := id;
      this.response := response;
      responseSize := size;
    }

    /** The history of the request. */
    ghost method Record(asked: Offer)
      requires Valid()
      modifies `issued, `offer, `answer
      ensures var s := old(Abs());
              Abs() == s.(ipc := s.ipc.(issued := s.ipc.issued + 1, offer := asked, answer := None))
    {
      hide Q.Ring;
      issued, offer, answer := issued + 1, asked, None;
    }

    /** The identifier, in the command and in the pending record. */
    method Arm(command: array<Byte>, response: seq<Byte>, size: nat)
      requires Valid() && command.Length >= HEADER_SIZE && pendingReqId == RESET
      requires command as object != networkPacketFifo.fifo as object
      modifies command, `reqId, `pendingReqId, `response, `responseSize, `apiId, `issued, `offer, `answer
      ensures command[..] == WithReqId(old(command[..]), pendingReqId)
      ensures Abs() == old(Abs()).(ipc := Armed(old(Abs()).ipc, old(command[..]), response, size))
    {
      hide GetApiId, WithReqId, Next, Wrap, Q.Ring;
      apiId := GetApiId(command[..]);
      var id := GetNewReqId();
      SetReqId(command, id);
      Pend(id, response, size);
      Record(Offer(response, size));
    }

    /** The optional wake-up, then the command itself. */
    method Transmit(command: seq<Byte>)
      requires Valid() && |command| <= SPI_MAX_BYTE_COUNT
      modifies `txDataAddress, `txDataLength, `txRxSem
      ensures Abs() == Send(if isPowerSaveEnabled then Send(old(Abs()), DUMMY).0 else old(Abs()), command).0
    {
      hide Send, Q.Ring;
      if isPowerSaveEnabled {
        var woken := SendImp(DUMMY);
      }
      var sent := SendImp(command);
      AssertAlways(sent == |command|);
    }

    /** The first half of request. */
    method Post(command: array<Byte>, response: seq<Byte>, size: nat)
      requires Valid() && Inv(Abs()) && hang.None? && pc.Idle?
      requires EventOk(Request(command[..], response, size))
      requires CommandAllowed(build, GetApiId(command[..]), command.Length)
      requires command as object != networkPacketFifo.fifo as object
      modifies this, command
      ensures Valid() && command[..] == WithReqId(old(command[..]), IdOf(old(issued)))
      ensures Abs() == BeginRequest(old(Abs()), old(command[..]), response, size)
    {
      hide GetApiId, WithReqId, Next, Wrap, Q.Ring, Inv, CommandAllowed, Counter;
      PostFacts(Abs(), command[..]);
      AssertAlways(pendingReqId == RESET);
      Arm(command, response, size);
      Transmit(command[..]);
      pc := Waiting;
    }

    /** The second half of request once the outcome is known. */
    method Conclude(api: nat, result: Status)
      requires Valid() && api == apiId
      modifies `isPowerSaveEnabled, `status, `pc
      ensures Abs() == Finish(old(Abs()), result)
    {
      hide Q.Ring;
      status := result;
      if api == WIFI_PS_ON {
        isPowerSaveEnabled := true;
      }
      if api == WIFI_PS_OFF {
        isPowerSaveEnabled := false;
      }
      pc := Idle;
    }

    /** The wait for the answer, then the end of the call. */
    method AwaitAnswer(api: nat, ticks: seq<Tick>) returns (next: nat, outcome: Outcome)
      requires Valid() && Inv(Abs()) && hang.None? && pc.Waiting? && TicksOk(build, issued, ticks) && api == apiId
      modifies this, networkPacketFifo, networkPacketFifo.fifo
      ensures Valid() && next <= |ticks| && issued == old(issued) && offer == old(offer)
      ensures Abs() == Turns(old(Abs()), ticks, 0, next)
      ensures Ended(outcome, status, pc, hang, next == |ticks|)
      ensures outcome.Returned? ==> HoldsAnswer(issued, offer, answer, Offer(this.response, responseSize))
      ensures outcome.TimedOut? ==> Offer(this.response, responseSize) == offer
    {
      hide TicksOk, Turns, Inv, Q.Ring, HoldsAnswer;
      next, outcome := TakeResponseSemaphore(ticks);
      if outcome.Returned? {
        Conclude(api, Success);
      } else if outcome.TimedOut? {
        pendingReqId := RESET;
        Conclude(api, Error);
      }
    }

    /**
     * A request call: on return it has done the step that begins it and the turns up to its end. Success leaves the
     * answer to this very request in the response buffer, a timeout leaves the buffer as it was, and in the
     * caller's command only the identifier is written. A driver that is not usable only returns the error.
     */
    method RequestCommand(command: array<Byte>, response: seq<Byte>, size: nat, ticks: seq<Tick>)
      returns (next: nat, outcome: Outcome)
      requires Valid() && Inv(Abs()) && hang.None? && pc.Idle?
      requires EventOk(Request(command[..], response, size))
      requires var accepted := isUsable && CommandAllowed(build, GetApiId(command[..]), command.Length);
               TicksOk(build, if accepted then issued + 1 else issued, ticks)
      requires command as object != this && command as object != networkPacketFifo.fifo as object
      modifies this, command, networkPacketFifo, networkPacketFifo.fifo
      ensures Valid() && next <= |ticks|
      ensures var begun := if isUsable then BeginRequest(old(Abs()), old(command[..]), response, size)
                           else Refused(old(Abs()));
              Inv(begun) && TicksOk(begun.build, begun.ipc.issued, ticks) && Abs() == Turns(begun, ticks, 0, next)
      ensures Ended(outcome, status, pc, hang, next == |ticks|)
      ensures (exists j :: ExpiredFrom(ticks, j)) ==> !outcome.StillWaiting?
      ensures var text := old(command[..]);
              var got := Offer(this.response, responseSize);
              if isUsable && CommandAllowed(build, GetApiId(text), |text|) then
                && command[..] == WithReqId(text, IdOf(old(issued)))
                && (outcome.Returned? ==> HoldsAnswer(old(issued) + 1, Offer(response, size), answer, got))
                && (outcome.TimedOut? ==> got == Offer(response, size))
              else
                outcome.TimedOut? && command[..] == text && got == old(Offer(this.response, responseSize))
    {
      hide GetApiId, WithReqId, Next, Wrap, Q.Ring, TicksOk, Turns, BeginRequest, Inv, HoldsAnswer;
      ghost var s, text := Abs(), command[..];
      if !isUsable {
        RefusedKeepsInv(s);
        TurnsNone(Refused(s), ticks, 0);
        status := Error;
        return 0, TimedOut;
      }
      BeginFacts(s, text, response, size);
      var api := GetApiId(command[..]);
      if CommandAllowed(build, api, command.Length) {
        Post(command, response, size);
        ghost var begun := Abs();
        next, outcome := AwaitAnswer(api, ticks);
        forall j | ExpiredFrom(ticks, j) ensures !outcome.StillWaiting? {
          CallEnds(begun, ticks, j, |ticks|);
        }
      } else {
        next, outcome := 0, TimedOut;
        apiId := api;
        TurnsNone(BeginRequest(s, text, response, size), ticks, 0);
        Conclude(api, Error);
      }
    }
  }

  // ---------- a delivered answer is returned ----------

  lemma AnswerTaken(s: State, tick: Tick)
    requires Inv(s) && DeviceOk(s.build, s.ipc.issued, tick.transaction) && s.hang.None?
    requires s.pc == Receiving(true) && s.fifo != []
    ensures OneTurn(s, tick).pc == Handling(true, s.fifo[0])
    ensures OneTurn(s, tick).ipc == s.ipc && OneTurn(s, tick).hang.None?
  {
    hide Inv, DeviceOk, OneTurn, SpiStep, Wrap;
    ReceivingFacts(s, tick);
  }

  lemma AnswerHandled(s: State, tick: Tick)
    requires Inv(s) && DeviceOk(s.build, s.ipc.issued, tick.transaction) && s.hang.None?
    requires s.pc.Handling? && s.pc.inRequest && OwnAnswer(s.ipc, s.pc.buffer)
    ensures var r := OneTurn(s, tick); r.pc == Waiting && r.ipc.offer == s.ipc.offer && r.hang.None?
    ensures OneTurn(s, tick).ipc.sem == 1 && OneTurn(s, tick).ipc.answer == Some(s.pc.buffer)
  {
    InHandling(s);
    hide Inv, DeviceOk, OneTurn, Interrupted, Filled, GetReqId, GetApiId, Genuine, IdOf;
    HandlingFacts(s, tick);
    MatchIsOwn(s.ipc, s.pc.buffer);
    SameIpc(s, tick.interrupts);
  }

  lemma SameIpc(s: State, n: nat)
    ensures Interrupted(s, n).ipc == s.ipc && Interrupted(s, n).hang == s.hang
  {
  }

  lemma InHandling(s: State)
    requires Inv(s) && s.pc.Handling? && s.pc.inRequest
    ensures Unanswered(s.ipc) && Genuine(s.pc.buffer, s.ipc.issued)
  {
    hide PoolInv, MailboxInv, Unanswered, Genuine;
  }

  lemma AnswerReturned(s: State, tick: Tick)
    requires Inv(s) && DeviceOk(s.build, s.ipc.issued, tick.transaction) && s.hang.None?
    requires s.pc.Waiting? && s.ipc.sem == 1 && s.ipc.answer.Some?
    ensures var r := OneTurn(s, tick);
            && r.pc.Idle? && r.ipc.status == Success && r.hang.None?
            && HoldsAnswer(s.ipc.issued, s.ipc.offer, s.ipc.answer, Offer(r.ipc.response, r.ipc.responseSize))
  {
    hide Inv, DeviceOk, OneTurn, HoldsAnswer, Interrupted;
    WaitingFacts(s, tick);
    WaitEnds(s);
    SameIpc(s, tick.interrupts);
  }

  /** Once the answer to the request is in the queue, the call returns it in three turns, whatever the clock says. */
  lemma {:induction false} DeliveredAnswerIsReturned(s: State, ticks: seq<Tick>, at: nat)
    requires Inv(s) && s.hang.None? && s.pc == Receiving(true) && s.fifo != [] && OwnAnswer(s.ipc, s.fifo[0])
    requires TicksOk(s.build, s.ipc.issued, ticks) && at + 3 <= |ticks|
    ensures var r := Turns(s, ticks, at, at + 3);
            && r.pc.Idle? && r.ipc.status == Success && r.hang.None?
            && HoldsAnswer(s.ipc.issued, s.ipc.offer, Some(s.fifo[0]), Offer(r.ipc.response, r.ipc.responseSize))
  {
    hide Inv, OneTurn, Turns, DeviceOk, HoldsAnswer, OwnAnswer;
    var a, b := Turns(s, ticks, at, at + 1), Turns(s, ticks, at, at + 2);
    TurnsNone(s, ticks, at);
    TurnsNext(s, ticks, at, at);
    TurnsNext(s, ticks, at, at + 1);
    TurnsNext(s, ticks, at, at + 2);
    AnswerTaken(s, ticks[at]);
    AnswerHandled(a, ticks[at + 1]);
    AnswerReturned(b, ticks[at + 2]);
  }

  function Refused(s: State): State {
    s.(ipc := s.ipc.(status := Error))
  }

  lemma RefusedKeepsInv(s: State)
    requires Inv(s)
    ensures Inv(Refused(s))
  {
    hide QueueInv, MailboxInv, PoolInv, Counter, IsResponse, GetReqId, IdOf, Filled;
  }

  lemma PostFacts(s: State, command: seq<Byte>)
    requires Inv(s) && s.pc.Idle? && |command| >= HEADER_SIZE
    requires CommandAllowed(s.build, GetApiId(command), |command|)
    ensures s.ipc.pendingId == RESET && |command| <= SPI_MAX_BYTE_COUNT
    ensures Next(s.ipc.lastId) == IdOf(s.ipc.issued)
  {
    SendFits(s.build, command);
    CounterStep(s.ipc.issued);
    hide QueueInv, MailboxInv, PoolInv, GetApiId, Next, Counter;
  }

  /** How a request begins, allowed or not. */
  lemma BeginFacts(s: State, command: seq<Byte>, response: seq<Byte>, size: nat)
    requires Inv(s) && s.pc.Idle? && s.hang.None? && EventOk(Request(command, response, size))
    ensures var r := BeginRequest(s, command, response, size);
            && Inv(r) && r.hang.None? && r.build == s.build
            && (if CommandAllowed(s.build, GetApiId(command), |command|)
                then r.pc.Waiting? && r.ipc.issued == s.ipc.issued + 1 && r.ipc.api == GetApiId(command)
                     && r.ipc.offer == Offer(response, size)
                else r == Finish(s.(ipc := s.ipc.(api := GetApiId(command))), Error))
  {
    hide Inv, GetApiId, WithReqId, Wrap, Next, CommandAllowed, BeginRequest;
    BeginKeepsInv(s, command, response, size);
    BeginShape(s, command, response, size);
  }

  lemma BeginShape(s: State, command: seq<Byte>, response: seq<Byte>, size: nat)
    requires Inv(s) && s.pc.Idle? && s.hang.None? && |command| >= HEADER_SIZE
    ensures var r := BeginRequest(s, command, response, size);
            && r.build == s.build
            && (if CommandAllowed(s.build, GetApiId(command), |command|)
                then r.hang.None? ==>
                       r.pc.Waiting? && r.ipc.issued == s.ipc.issued + 1 && r.ipc.api == GetApiId(command)
                       && r.ipc.offer == Offer(response, size)
                else r == Finish(s.(ipc := s.ipc.(api := GetApiId(command))), Error))
  {
    hide Inv, GetApiId, WithReqId, Wrap, Next, CommandAllowed;
    if CommandAllowed(s.build, GetApiId(command), |command|) {
      PostFacts(s, command);
    }
  }

  lemma {:induction false} TurnsCompose(s: State, ticks: seq<Tick>, a: nat, b: nat, c: nat)
    requires Inv(s) && TicksOk(s.build, s.ipc.issued, ticks) && a <= b <= c <= |ticks|
    ensures Turns(Turns(s, ticks, a, b), ticks, b, c) == Turns(s, ticks, a, c)
    decreases c - b
  {
    hide Inv, TicksOk, OneTurn;
    if b < c {
      TurnsCompose(s, ticks, a, b, c - 1);
    }
  }

  lemma TurnElsewhere(s: State, tick: Tick)
    requires WellTyped(s) && s.hang.None?
    ensures var i := Interrupted(s, tick.interrupts);
            && (s.pc.Waiting? ==> Step(s, Turn(tick)) == WaitTurn(i, tick.expired))
            && (s.pc.Handling? ==>
                  && BufferOk(i.build, s.pc.buffer) && OfferOk(i)
                  && Step(s, Turn(tick)) == Handle(i, s.pc.buffer, tick.netlink).(pc := Resume(s.pc.inRequest)))
  {
    hide ReceiveTurn, Wrap, BeginRequest, Handle, WaitTurn;
  }

  lemma WaitingFacts(s: State, tick: Tick)
    requires Inv(s) && s.pc.Waiting? && s.hang.None? && DeviceOk(s.build, s.ipc.issued, tick.transaction)
    ensures var i := Interrupted(s, tick.interrupts);
            OneTurn(s, tick) ==
            if i.ipc.sem >= 1 then Finish(i.(ipc := i.ipc.(sem := i.ipc.sem - 1)), Success)
            else if tick.expired then Finish(i.(ipc := i.ipc.(pendingId := RESET)), Error)
            else i.(pc := Receiving(true))
  {
    hide Inv, Finish, DeviceOk, WellTyped, Step, Interrupted;
    InvWellTyped(s);
    TurnElsewhere(s, tick);
  }

  lemma HandlingFacts(s: State, tick: Tick)
    requires Inv(s) && s.pc.Handling? && s.hang.None? && DeviceOk(s.build, s.ipc.issued, tick.transaction)
    ensures var i := Interrupted(s, tick.interrupts);
            && BufferOk(i.build, s.pc.buffer) && OfferOk(i)
            && OneTurn(s, tick) == Handle(i, s.pc.buffer, tick.netlink).(pc := Resume(s.pc.inRequest))
  {
    hide Inv, Handle, DeviceOk, WellTyped, Step, Interrupted, BufferOk, OfferOk;
    InvWellTyped(s);
    TurnElsewhere(s, tick);
  }

  lemma TurnsNext(s: State, ticks: seq<Tick>, start: nat, next: nat)
    requires Inv(s) && TicksOk(s.build, s.ipc.issued, ticks) && start <= next < |ticks|
    ensures Turns(s, ticks, start, next + 1) == OneTurn(Turns(s, ticks, start, next), ticks[next])
  {
    hide Inv, OneTurn, DeviceOk;
  }

  lemma TurnsNone(s: State, ticks: seq<Tick>, start: nat)
    requires Inv(s) && TicksOk(s.build, s.ipc.issued, ticks) && start <= |ticks|
    ensures Turns(s, ticks, start, start) == s
  {
  }

  lemma TurnWhileReceiving(s: State, tick: Tick)
    requires WellTyped(s) && s.pc.Receiving? && s.hang.None?
    ensures Step(s, Turn(tick)) == ReceiveTurn(Interrupted(s, tick.interrupts), s.pc.inRequest, tick)
  {
    hide ReceiveTurn, Wrap, BeginRequest, Handle, WaitTurn;
  }

  lemma ReceivingFacts(s: State, tick: Tick)
    requires Inv(s) && s.pc.Receiving? && s.hang.None? && DeviceOk(s.build, s.ipc.issued, tick.transaction)
    ensures var i := Interrupted(s, tick.interrupts);
            && |s.fifo| < FIFO_COUNT
            && OneTurn(s, tick) == ReceiveTurn(i, s.pc.inRequest, tick)
            && (s.fifo == [] ==> SpiStep(i, tick.transaction).hang.None?)
  {
    hide Inv, SpiStep, ReceiveTurn, DeviceOk, WellTyped, Step, Wrap;
    ReceivingFits(s);
    InvWellTyped(s);
    TurnWhileReceiving(s, tick);
    InterruptKeepsInv(s, tick.interrupts);
    if s.fifo == [] {
      SpiStepKeepsInv(Interrupted(s, tick.interrupts), tick.transaction);
    }
  }

  lemma ReceivingFits(s: State)
    requires Inv(s)
    ensures |s.fifo| < FIFO_COUNT
  {
    hide IpcInv, MailboxInv, PoolInv, PacketOk;
  }
}
