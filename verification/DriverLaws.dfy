/** What single steps of the driver do, said in bytes, lengths and signals, and that a prompt answer gets through. */
module DriverLaws {
  import opened Words
  import opened Text
  import opened RequestIds
  import opened DriverModel
  import opened DriverSafety
  import opened DriverRuns
  import opened Driver

  // ---------- the header ----------

  function LittleEndian(b0: nat, b1: nat, b2: nat, b3: nat): nat {
    b0 + 0x100 * b1 + 0x1_0000 * b2 + 0x100_0000 * b3
  }

  /** Identifier and command code are little-endian. */
  lemma HeaderIsLittleEndian(buffer: seq<Byte>)
    requires |buffer| >= 6
    ensures GetReqId(buffer) == LittleEndian(buffer[0], buffer[1], buffer[2], buffer[3])
    ensures GetApiId(buffer) == LittleEndian(buffer[4], buffer[5], 0, 0)
  {
  }

  lemma IdentifierIsLittleEndian(command: seq<Byte>, id: Word)
    requires |command| >= 6
    ensures var r := WithReqId(command, id);
            && |r| == |command| && r[4..] == command[4..]
            && LittleEndian(r[0], r[1], r[2], r[3]) == id
  {
    HeaderRoundTrip(command, id);
    HeaderIsLittleEndian(WithReqId(command, id));
    hide WithReqId, GetReqId;
  }

  // ---------- the start of a request ----------

  /** Sizes a request may have: an ordinary command as long as a network buffer, a certificate below 2500 bytes. */
  predicate SizeAllowed(build: Build, command: seq<Byte>)
    requires |command| >= 6
  {
    || |command| <= (if build.OnModule? then 2500 else 1542)
    || (command[4] == 0x0F && command[5] == 0x01 && |command| < 2500)
  }

  lemma SizeIsAllowed(build: Build, command: seq<Byte>)
    requires |command| >= 6
    ensures CommandAllowed(build, GetApiId(command), |command|) <==> SizeAllowed(build, command)
  {
    HeaderIsLittleEndian(command);
    hide GetApiId;
  }

  /**
   * A request of an allowed size puts the command with the next identifier in the mailbox and raises the SPI
   * semaphore, once more if a power-saving device is to be woken first; then it waits for that identifier.
   */
  lemma RequestIsPosted(s: State, command: seq<Byte>, response: seq<Byte>, size: nat)
    requires Inv(s) && s.pc.Idle? && s.hang.None? && EventOk(Request(command, response, size))
    requires SizeAllowed(s.build, command)
    ensures var r, id := BeginRequest(s, command, response, size), IdOf(s.ipc.issued);
            && r.spi.tx == Some(WithReqId(command, id)) && r.spi.txLength == |command|
            && r.spi.txRx == (s.spi.txRx + if s.ipc.powerSave then 2 else 1) % 0x1_0000_0000
            && r.spi.held == s.spi.held && r.fifo == s.fifo && r.pool == s.pool && r.hang.None?
            && r.pc == Waiting && r.ipc.pendingId == id && r.ipc.sem == 0 && r.ipc.issued == s.ipc.issued + 1
            && r.ipc.response == response && r.ipc.responseSize == size
            && r.ipc.powerSave == s.ipc.powerSave && r.ipc.api == GetApiId(command)
  {
    SizeIsAllowed(s.build, command);
    PostFacts(s, command);
    RaisedTwice(s.spi.txRx);
    IdleIsQuiet(s);
    hide SizeAllowed, CommandAllowed, GetApiId, WithReqId, Next, Inv, Counter, Wrap;
    WithReqIdSize(command, IdOf(s.ipc.issued));
  }

  lemma IdleIsQuiet(s: State)
    requires Inv(s) && s.pc.Idle?
    ensures s.ipc.sem == 0
  {
    hide QueueInv, MailboxInv, PoolInv, Counter;
  }

  lemma WithReqIdSize(command: seq<Byte>, id: Word)
    requires |command| >= 6
    ensures |WithReqId(command, id)| == |command|
  {
  }

  lemma RaisedTwice(n: Word)
    ensures Wrap(n + 1) == (n + 1) % 0x1_0000_0000 && Wrap(Wrap(n + 1) + 1) == (n + 2) % 0x1_0000_0000
  {
  }

  /** What the power-save flag is once a call of this command has ended. */
  predicate PowerSaveIs(command: seq<Byte>, before: bool, after: bool)
    requires |command| >= 6
  {
    if command[4] == 0x09 && command[5] == 0x01 then after
    else if command[4] == 0x0A && command[5] == 0x01 then !after
    else after == before
  }

  lemma PowerSaveByCode(command: seq<Byte>, ipc: Ipc)
    requires |command| >= 6 && ipc.api == GetApiId(command)
    ensures PowerSaveIs(command, ipc.powerSave, PowerSaveAfter(ipc))
  {
    HeaderIsLittleEndian(command);
    hide GetApiId;
  }

  /** A command of another size is refused at once: only the power-save flag may change. */
  lemma TooLargeIsRefused(s: State, command: seq<Byte>, response: seq<Byte>, size: nat)
    requires s.pc.Idle? && EventOk(Request(command, response, size)) && !SizeAllowed(s.build, command)
    ensures var r := BeginRequest(s, command, response, size);
            && r.pc == Idle && r.ipc.status == Error && PowerSaveIs(command, s.ipc.powerSave, r.ipc.powerSave)
            && r.spi == s.spi && r.fifo == s.fifo && r.pool == s.pool && r.hang == s.hang
            && r.ipc.response == s.ipc.response && r.ipc.responseSize == s.ipc.responseSize
            && r.ipc.issued == s.ipc.issued && r.ipc.pendingId == s.ipc.pendingId && r.ipc.sem == s.ipc.sem
  {
    SizeIsAllowed(s.build, command);
    PowerSaveByCode(command, s.ipc.(api := GetApiId(command)));
    hide SizeAllowed, CommandAllowed, GetApiId, PowerSaveIs, PowerSaveAfter;
  }

  // ---------- one SPI transaction ----------

  /** The device's header is sound: a read type, and a length confirmed by its complement. */
  predicate SoundHeader(t: Transaction) {
    t.header.Some? && t.header.value.kind == 0x0B && t.header.value.len + t.header.value.lenx == 0xFFFF
  }

  /** The data phase is reached: one side has something to say, the device is ready twice, and there is room. */
  predicate DataPhase(s: State, t: Transaction) {
    && (s.spi.tx.Some? || t.notifyHigh) && t.flow0 && t.flow1 && SoundHeader(t)
    && t.header.value.len <= (if s.build.OnModule? then 2500 else 1542)
    && (t.header.value.len > 0 || s.spi.tx.Some?)
  }

  predicate PacketComesIn(s: State, t: Transaction) {
    DataPhase(s, t) && t.header.value.len > 0 && t.transferOk
  }

  function HeldId(s: State): nat {
    if s.spi.held.Some? then s.spi.held.value.id else s.pool.created
  }

  /**
   * A woken step with an empty queue. A packet comes in if and only if the data phase is reached, the device
   * announced something and the transfer went well, whether or not a command is sent beside it: then the held
   * buffer is queued with exactly that length, these contents and this origin. The mailbox is emptied if and only
   * if the data phase is reached. Nothing else changes.
   */
  lemma StepMovesThePacket(s: State, t: Transaction)
    requires MailboxInv(s.build, s.spi) && s.fifo == [] && s.spi.txRx >= 1
    ensures var r, id := SpiStep(s, t), HeldId(s);
            && r.fifo == (if PacketComesIn(s, t) then [Buffer(id, t.header.value.len, t.contents, t.origin)] else [])
            && (r.spi.held.None? <==> PacketComesIn(s, t))
            && (r.spi.held.Some? ==> r.spi.held.value.id == id)
            && (DataPhase(s, t) ==> r.spi.tx == None && r.spi.txLength == 0)
            && (!DataPhase(s, t) ==> r.spi.tx == s.spi.tx && r.spi.txLength == s.spi.txLength)
            && r.spi.txRx == s.spi.txRx - 1
            && r.ipc == s.ipc && r.pc == s.pc && r.hang == s.hang && r.build == s.build
            && r.pool.freed == s.pool.freed && r.pool.delivered == s.pool.delivered
            && r.pool.created == s.pool.created + if s.spi.held.Some? then 0 else 1
  {
  }

  /** A step that nobody wakes only makes sure that it holds a buffer. */
  lemma StepSleeps(s: State, t: Transaction)
    requires s.spi.txRx == 0
    ensures var r := SpiStep(s, t);
            && r.fifo == s.fifo && r.spi.tx == s.spi.tx && r.spi.txLength == s.spi.txLength && r.spi.txRx == 0
            && r.spi.held.Some? && r.spi.held.value.id == HeldId(s) && r.ipc == s.ipc && r.hang == s.hang
  {
  }

  // ---------- one packet ----------

  /** The packet answers the pending request: long enough, no event, and with its identifier. */
  predicate Answers(s: State, b: Buffer)
    requires |b.data| >= 6
  {
    && b.size >= 6 && b.data[5] < 0x80
    && LittleEndian(b.data[0], b.data[1], b.data[2], b.data[3]) == s.ipc.pendingId
  }

  /** A frame for the network interface: the bypass input event, an interface that listens, and a length. */
  predicate IsFrame(build: Build, b: Buffer, netlink: bool)
    requires |b.data| >= 28
  {
    && build.Bypass? && b.size >= 6 && b.data[4] == 0x02 && b.data[5] == 0x81
    && netlink && (b.data[26] != 0 || b.data[27] != 0)
  }

  /**
   * What handling a packet does. The buffer is handed on if and only if it is a frame for the network interface,
   * and freed otherwise. The request is completed if and only if the packet answers it; nothing else changes.
   */
  lemma PacketIsHandled(s: State, b: Buffer, netlink: bool)
    requires BufferOk(s.build, b) && OfferOk(s)
    ensures |b.data| >= 28
    ensures var r := Handle(s, b, netlink);
            && r.pool.created == s.pool.created
            && r.pool.delivered == s.pool.delivered + (if IsFrame(s.build, b, netlink) then [b.id] else [])
            && r.pool.freed == s.pool.freed + (if IsFrame(s.build, b, netlink) then [] else [b.id])
            && r.spi == s.spi && r.fifo == s.fifo && r.pc == s.pc && r.build == s.build
            && (!Answers(s, b) ==> r.ipc == s.ipc)
            && (Answers(s, b) ==>
                  && r.ipc.pendingId == 0xFFFF_FFFF && r.ipc.sem == (s.ipc.sem + 1) % 0x1_0000_0000
                  && AnswerCopied(Offer(s.ipc.response, s.ipc.responseSize), b, Offer(r.ipc.response, r.ipc.responseSize)))
  {
    hide GetReqId, GetApiId, Filled, AnswerCopied, Wrap;
    assert s.pool.delivered + [] == s.pool.delivered && s.pool.freed + [] == s.pool.freed;
    if b.size >= 6 {
      HeaderIsLittleEndian(b.data);
      FilledIsCopied(Offer(s.ipc.response, s.ipc.responseSize), b);
      RaisedTwice(s.ipc.sem);
    }
  }

  // ---------- timeouts and prompt answers ----------

  /** A call that was accepted fails only in a turn in which the clock had run out and no answer was in. */
  lemma FailsOnlyByTheClock(states: seq<State>, events: seq<Event>, build: Build, i: nat, k: nat)
    requires k < |events| && Calling(states, events, build, i, k) && states[k + 1].pc.Idle?
    requires states[k + 1].ipc.status.Error?
    ensures events[k].Turn? && events[k].tick.expired && states[k].pc == Waiting && states[k].ipc.sem == 0
  {
    RunKeepsInv(states, events, build, k);
    assert IsStep(states[k], events[k], states[k + 1]) && InRequest(states[k].pc);
    hide IsRun, Inv, IsStep;
    EndsByTheClock(states[k], events[k], states[k + 1]);
  }

  lemma EndsByTheClock(s: State, e: Event, s': State)
    requires IsStep(s, e, s') && InRequest(s.pc) && s'.pc.Idle?
    ensures s.pc == Waiting && e.Turn?
    ensures s'.ipc.powerSave == PowerSaveAfter(s.ipc)
    ensures s'.ipc.status.Error? ==> e.tick.expired && s.ipc.sem == 0
  {
    hide Handle, SpiStep, BeginRequest, DeviceOk;
    if e.Turn? && s.pc.Receiving? {
      SpiStepLeaves(Interrupted(s, e.tick.interrupts), e.tick.transaction);
    }
  }

  lemma CodeStays(s: State, e: Event, s': State)
    requires IsStep(s, e, s') && InRequest(s.pc) && InRequest(s'.pc)
    ensures s'.ipc.api == s.ipc.api && s'.ipc.powerSave == s.ipc.powerSave
  {
    hide Handle, SpiStep, BeginRequest, DeviceOk, PowerSaveAfter;
    if e.Turn? && s.hang.None? {
      var i := Interrupted(s, e.tick.interrupts);
      SpiStepLeaves(i, e.tick.transaction);
      if s.pc.Handling? {
        HandleKeepsCode(i, s.pc.buffer, e.tick.netlink);
      }
    }
  }

  lemma HandleKeepsCode(s: State, b: Buffer, netlink: bool)
    requires BufferOk(s.build, b) && OfferOk(s)
    ensures var r := Handle(s, b, netlink); r.ipc.api == s.ipc.api && r.ipc.powerSave == s.ipc.powerSave
  {
    hide GetReqId, GetApiId, Filled, TotalLength;
  }

  lemma {:induction false} CodeOfTheCall(states: seq<State>, events: seq<Event>, build: Build, i: nat, k: nat)
    requires Calling(states, events, build, i, k)
    ensures |events[i].command| >= 6
    ensures states[k].ipc.api == GetApiId(events[i].command) && states[k].ipc.powerSave == states[i].ipc.powerSave
    decreases k
  {
    assert IsStep(states[k - 1], events[k - 1], states[k]);
    hide IsStep, GetApiId;
    if k == i + 1 {
      CodeAtTheStart(states[i], events[i], states[k]);
    } else {
      CodeOfTheCall(states, events, build, i, k - 1);
      CodeStays(states[k - 1], events[k - 1], states[k]);
    }
  }

  lemma CodeAtTheStart(s: State, e: Event, s': State)
    requires IsStep(s, e, s') && e.Request? && s.pc.Idle? && s.hang.None? && InRequest(s'.pc)
    ensures |e.command| >= 6
    ensures s'.ipc.api == GetApiId(e.command) && s'.ipc.powerSave == s.ipc.powerSave
  {
    hide GetApiId, WithReqId, Next, Wrap;
  }

  /** The power-save flag follows the commands that end, answered or not. */
  lemma CallSetsPowerSave(states: seq<State>, events: seq<Event>, build: Build, i: nat, k: nat)
    requires k < |events| && Calling(states, events, build, i, k) && states[k + 1].pc.Idle?
    ensures |events[i].command| >= 6
    ensures PowerSaveIs(events[i].command, states[i].ipc.powerSave, states[k + 1].ipc.powerSave)
  {
    CodeOfTheCall(states, events, build, i, k);
    PowerSaveByCode(events[i].command, states[k].ipc);
    assert IsStep(states[k], events[k], states[k + 1]) && InRequest(states[k].pc);
    hide IsRun, IsStep, PowerSaveIs, GetApiId;
    EndsByTheClock(states[k], events[k], states[k + 1]);
  }

  /** The device answers the request that waits. */
  predicate AnswersNow(s: State, t: Transaction) {
    && s.ipc.issued > 0 && t.origin == Answer(s.ipc.issued - 1)
    && t.header.Some? && t.header.value.len >= 6 && |t.contents| >= 6 && t.contents[5] < 0x80
  }

  lemma WaitGoesOn(s: State, tick: Tick)
    requires Inv(s) && DeviceOk(s.build, s.ipc.issued, tick.transaction) && s.hang.None?
    requires s.pc.Waiting? && s.ipc.sem == 0 && !tick.expired
    ensures OneTurn(s, tick) == Interrupted(s, tick.interrupts).(pc := Receiving(true))
  {
    hide Inv, DeviceOk, OneTurn, Interrupted;
    WaitingFacts(s, tick);
    SameIpc(s, tick.interrupts);
  }

  lemma WaitingIsEmpty(s: State)
    requires Inv(s) && s.pc.Waiting?
    ensures s.fifo == []
  {
    IdleIsEmpty(s);
  }

  lemma InvMailbox(s: State)
    requires Inv(s)
    ensures MailboxInv(s.build, s.spi)
  {
    hide IpcInv, QueueInv, PoolInv, MailboxInv;
  }

  lemma AnswerComes(s: State, tick: Tick)
    requires Inv(s) && DeviceOk(s.build, s.ipc.issued, tick.transaction) && s.hang.None?
    requires s.pc == Receiving(true) && s.fifo == [] && !tick.expired
    requires (s.spi.txRx + tick.interrupts) % 0x1_0000_0000 > 0
    requires PacketComesIn(s, tick.transaction) && AnswersNow(s, tick.transaction)
    ensures var r := OneTurn(s, tick);
            && r.pc == Receiving(true) && r.hang.None? && r.ipc == s.ipc
            && |r.fifo| == 1 && OwnAnswer(r.ipc, r.fifo[0])
            && r.fifo[0].size == tick.transaction.header.value.len && r.fifo[0].data == tick.transaction.contents
  {
    var i, t := Interrupted(s, tick.interrupts), tick.transaction;
    GenuineAnswer(s, t);
    InvMailbox(s);
    hide Inv, OneTurn, SpiStep, DeviceOk, MailboxInv, AnswersNow, OwnAnswer;
    ReceivingFacts(s, tick);
    MailboxStays(s, tick.interrupts);
    StepMovesThePacket(i, t);
    OwnWhereverHeld(s.ipc, Buffer(0, t.header.value.len, t.contents, t.origin), HeldId(i));
  }

  lemma MailboxStays(s: State, n: nat)
    requires MailboxInv(s.build, s.spi)
    ensures MailboxInv(s.build, Interrupted(s, n).spi)
  {
  }

  lemma GenuineAnswer(s: State, t: Transaction)
    requires DeviceOk(s.build, s.ipc.issued, t) && AnswersNow(s, t) && PacketComesIn(s, t)
    ensures t.header.Some? && OwnAnswer(s.ipc, Buffer(0, t.header.value.len, t.contents, t.origin))
  {
    HeaderIsLittleEndian(t.contents);
    hide GetReqId, GetApiId, IdOf;
  }

  lemma OwnWhereverHeld(ipc: Ipc, b: Buffer, id: nat)
    requires OwnAnswer(ipc, b)
    ensures OwnAnswer(ipc, b.(id := id))
  {
    hide GetReqId, IdOf;
  }

  /** The device is prompt: the clock runs on for two turns, and in the second the awake SPI step gets the answer. */
  predicate Prompt(s: State, first: Tick, second: Tick) {
    && !first.expired && !second.expired
    && (s.spi.txRx + first.interrupts + second.interrupts) % 0x1_0000_0000 > 0
    && PacketComesIn(s, second.transaction) && AnswersNow(s, second.transaction)
  }

  lemma TwoTurns(s: State, first: Tick, second: Tick)
    requires Inv(s) && s.hang.None? && s.pc.Waiting? && s.ipc.sem == 0 && Prompt(s, first, second)
    requires DeviceOk(s.build, s.ipc.issued, first.transaction) && DeviceOk(s.build, s.ipc.issued, second.transaction)
    ensures var r := OneTurn(OneTurn(s, first), second);
            && r.pc == Receiving(true) && r.hang.None? && r.ipc == s.ipc
            && |r.fifo| == 1 && OwnAnswer(r.ipc, r.fifo[0])
            && r.fifo[0].size == second.transaction.header.value.len && r.fifo[0].data == second.transaction.contents
  {
    hide Inv, OneTurn, DeviceOk, OwnAnswer, Wrap, AnswersNow, SoundHeader, PacketComesIn;
    WaitingIsEmpty(s);
    WaitGoesOn(s, first);
    InterruptsAdd(s, first.interrupts, second.interrupts);
    SameAnswer(s, OneTurn(s, first), second.transaction);
    AnswerComes(OneTurn(s, first), second);
  }

  /**
   * A prompt answer gets through: a request waits and the device is prompt; then three more turns, whatever the clock
   * says in them, end the call with success and that answer in the caller's buffer.
   */
  lemma {:induction false} PromptAnswerIsReturned(s: State, ticks: seq<Tick>)
    requires Inv(s) && s.hang.None? && s.pc.Waiting? && s.ipc.sem == 0
    requires TicksOk(s.build, s.ipc.issued, ticks) && |ticks| >= 5 && Prompt(s, ticks[0], ticks[1])
    ensures var r, t := Turns(s, ticks, 0, 5), ticks[1].transaction;
            && r.pc.Idle? && r.ipc.status == Success && r.hang.None?
            && exists id :: AnswerCopied(s.ipc.offer, Buffer(id, t.header.value.len, t.contents, t.origin),
                                         Offer(r.ipc.response, r.ipc.responseSize))
  {
    hide Inv, OneTurn, Turns, DeviceOk, HoldsAnswer, OwnAnswer, AnswersNow, SoundHeader, TicksOk, AnswerCopied;
    var t := ticks[1].transaction;
    TickIsOk(s.build, s.ipc.issued, ticks, 0);
    TickIsOk(s.build, s.ipc.issued, ticks, 1);
    TurnsNone(s, ticks, 0);
    TurnsNext(s, ticks, 0, 0);
    TurnsNext(s, ticks, 0, 1);
    TwoTurns(s, ticks[0], ticks[1]);
    var b := OneTurn(OneTurn(s, ticks[0]), ticks[1]);
    DeliveredAnswerIsReturned(b, ticks, 2);
    TurnsCompose(s, ticks, 0, 2, 5);
    PromptIs(s, ticks[0], ticks[1]);
    WhatIsHeld(b.ipc, b.fifo[0], t, Turns(b, ticks, 2, 5));
  }

  lemma PromptIs(s: State, first: Tick, second: Tick)
    requires Prompt(s, first, second)
    ensures second.transaction.header.Some? && second.transaction.origin == Answer(s.ipc.issued - 1)
  {
  }

  lemma InterruptsAdd(s: State, m: nat, n: nat)
    ensures Interrupted(s, m).spi == s.spi.(txRx := Wrap(s.spi.txRx + m)) && Interrupted(s, m).build == s.build
    ensures Interrupted(s, m).fifo == s.fifo && Interrupted(s, m).ipc == s.ipc && Interrupted(s, m).hang == s.hang
    ensures (Wrap(s.spi.txRx + m) + n) % 0x1_0000_0000 == (s.spi.txRx + m + n) % 0x1_0000_0000
  {
  }

  lemma SameAnswer(s: State, a: State, t: Transaction)
    requires a.spi.tx == s.spi.tx && a.build == s.build && a.ipc == s.ipc
    ensures PacketComesIn(a, t) == PacketComesIn(s, t) && AnswersNow(a, t) == AnswersNow(s, t)
  {
  }

  lemma WhatIsHeld(ipc: Ipc, b: Buffer, t: Transaction, r: State)
    requires OwnAnswer(ipc, b) && t.header.Some? && t.origin == Answer(ipc.issued - 1)
    requires b.size == t.header.value.len && b.data == t.contents
    requires HoldsAnswer(ipc.issued, ipc.offer, Some(b), Offer(r.ipc.response, r.ipc.responseSize))
    ensures AnswerCopied(ipc.offer, Buffer(b.id, t.header.value.len, t.contents, t.origin),
                         Offer(r.ipc.response, r.ipc.responseSize))
  {
    hide AnswerCopied, GetReqId, IdOf;
    assert b == Buffer(b.id, t.header.value.len, t.contents, t.origin);
  }
}
