/** Whole runs of the driver: whose answer a request returns, quiescence, no blocking, and where buffers go. */
module DriverRuns {
  import opened Words
  import opened Text
  import opened RequestIds
  import opened DriverModel
  import opened DriverSafety

  /** A run: every event is one the callers and the device may make, and every state the machine's next. */
  ghost predicate IsRun(states: seq<State>, events: seq<Event>, build: Build) {
    && |states| == |events| + 1
    && states[0] == Initial(build)
    && forall k :: 0 <= k < |events| ==> IsStep(states[k], events[k], states[k + 1])
  }

  predicate IsStep(s: State, e: Event, s': State) {
    WellTyped(s) && Allowed(s, e) && s' == Step(s, e)
  }

  lemma {:induction false} RunKeepsInv(states: seq<State>, events: seq<Event>, build: Build, k: nat)
    requires IsRun(states, events, build) && k < |states|
    ensures Inv(states[k])
  {
    if k == 0 {
      InitialInv(build);
    } else {
      RunKeepsInv(states, events, build, k - 1);
      assert IsStep(states[k - 1], events[k - 1], states[k]);
      hide Inv, Step, Allowed;
      StepIsKept(states[k - 1], events[k - 1], states[k]);
    }
  }

  lemma StepIsKept(s: State, e: Event, s': State)
    requires Inv(s) && IsStep(s, e, s')
    ensures Inv(s')
  {
    hide Inv, Step;
    StepKeepsInv(s, e);
  }

  // ---------- quiescence ----------

  /**
   * Between requests nothing is pending, the response semaphore is down and the queue is empty; and no run ever
   * reaches a failing assertion of the request path, nor a put into a full queue. HangsExactly says when a run stops.
   */
  lemma Quiescence(states: seq<State>, events: seq<Event>, build: Build, k: nat)
    requires IsRun(states, events, build) && k < |states|
    ensures var s := states[k];
            && (s.pc.Idle? ==> s.ipc.pendingId == RESET && s.ipc.sem == 0 && s.fifo == [])
            && s.ipc.sem <= 1
            && |s.fifo| <= 1 < FIFO_COUNT
            && (s.hang.None? || s.hang == Some(UnknownWiFiStatus))
  {
    RunKeepsInv(states, events, build, k);
    QuietWhenIdle(states[k]);
  }

  lemma QuietWhenIdle(s: State)
    requires Inv(s)
    ensures s.pc.Idle? ==> s.ipc.pendingId == RESET && s.ipc.sem == 0 && s.fifo == []
    ensures s.ipc.sem <= 1 && |s.fifo| <= 1 && (s.hang.None? || s.hang == Some(UnknownWiFiStatus))
  {
    hide Counter, MailboxInv, PoolInv, OwnAnswer, Filled, PacketOk;
  }

  // ---------- the one way to hang ----------

  /** A Wi-Fi status event whose status is none the source knows. */
  predicate IsUnknownStatus(b: Buffer) {
    && HEADER_SIZE < |b.data| && HEADER_SIZE <= b.size
    && GetApiId(b.data) == WIFI_STATUS_EVENT && !(1 <= b.data[HEADER_SIZE] <= 5)
  }

  predicate HandlesUnknownStatus(s: State, e: Event) {
    e.Turn? && s.pc.Handling? && IsUnknownStatus(s.pc.buffer)
  }

  lemma HandleHangs(s: State, b: Buffer, netlink: bool)
    requires BufferOk(s.build, b) && OfferOk(s)
    ensures Handle(s, b, netlink).hang == if IsUnknownStatus(b) then Some(UnknownWiFiStatus) else s.hang
  {
    hide GetReqId, GetApiId, Filled, TotalLength;
  }

  /** Of all the steps only that one hangs, and a hang is for ever. */
  lemma StepHangs(s: State, e: Event, s': State)
    requires IsStep(s, e, s') && Inv(s)
    ensures s'.hang.Some? <==> s.hang.Some? || HandlesUnknownStatus(s, e)
  {
    hide Inv, Handle, SpiStep, BeginRequest, DeviceOk, IsUnknownStatus;
    if s.hang.None? {
      match e
      case Turn(tick) =>
        var i := Interrupted(s, tick.interrupts);
        match s.pc {
          case Idle =>
          case Waiting =>
          case Receiving(r) =>
            if s.fifo == [] && !tick.expired {
              InterruptKeepsInv(s, tick.interrupts);
              SpiStepKeepsInv(i, tick.transaction);
            }
          case Handling(r, p) => HandleHangs(i, p, tick.netlink);
        }
      case Request(command, response, size) =>
        if s.pc.Idle? { BeginKeepsInv(s, command, response, size); }
      case Poll =>
    }
  }

  /** A run has hung if and only if it has handled an event with an unknown Wi-Fi status. */
  lemma {:induction false} HangsExactly(states: seq<State>, events: seq<Event>, build: Build, k: nat)
    requires IsRun(states, events, build) && k < |states|
    ensures states[k].hang.Some? <==>
              exists j :: 0 <= j < k && HandlesUnknownStatus(states[j], events[j])
  {
    if k > 0 {
      var j: nat := k - 1;
      HangsExactly(states, events, build, j);
      RunKeepsInv(states, events, build, j);
      assert IsStep(states[j], events[j], states[k]);
      hide Inv, IsStep, IsRun, HandlesUnknownStatus;
      StepHangs(states[j], events[j], states[k]);
    }
  }

  /** A late, duplicate or unasked-for answer changes nothing: its buffer is freed. */
  lemma StrayAnswerIsDropped(s: State, netlink: bool)
    requires Inv(s) && s.pc.Handling? && IsResponse(s.pc.buffer)
    requires !s.pc.inRequest || s.pc.buffer.origin != Answer(s.ipc.issued - 1)
    ensures BufferOk(s.build, s.pc.buffer) && OfferOk(s)
    ensures Handle(s, s.pc.buffer, netlink) == Free(s, s.pc.buffer)
  {
    HandledIsOk(s);
    var b := s.pc.buffer;
    hide Counter, GetReqId, GetApiId, Filled, PoolInv, MailboxInv, HangInv, QueueInv, Genuine;
    if s.pc.inRequest {
      MatchIsOwn(s.ipc, b);
    } else {
      QuietMatchesNothing(s.ipc, b);
    }
  }

  lemma HandledIsOk(s: State)
    requires Inv(s) && s.pc.Handling?
    ensures PacketOk(s.build, s.ipc.issued, s.pc.buffer) && OfferOk(s)
  {
    hide PoolInv, MailboxInv, HangInv, PacketOk, Unanswered, Quiet;
  }

  // ---------- own answer ----------

  /** The transaction of this event delivered this packet. */
  predicate Delivers(e: Event, b: Buffer) {
    && e.Turn? && e.tick.transaction.header.Some?
    && b.size == e.tick.transaction.header.value.len
    && b.data == e.tick.transaction.contents && b.origin == e.tick.transaction.origin
  }

  predicate Present(s: State, b: Buffer) {
    b in s.fifo || s.pc == Handling(true, b) || s.pc == Handling(false, b)
  }

  lemma SpiStepBrings(s: State, t: Transaction, tick: Tick, b: Buffer)
    requires tick.transaction == t && b in SpiStep(s, t).fifo && b !in s.fifo
    ensures Delivers(Turn(tick), b)
  {
    var a := Allocate(s);
    var taken := a.(spi := a.spi.(txRx := a.spi.txRx - 1));
    if a.spi.txRx > 0 && TransferOf(taken, t).Some? {
      TransferIsAnnounced(taken, t);
    }
  }

  /** Packets come from the device, one transaction each; an answer was being handled just before. */
  lemma StepBrings(s: State, e: Event, s': State, b: Buffer)
    requires IsStep(s, e, s') && Inv(s)
    ensures Present(s', b) ==> Present(s, b) || Delivers(e, b)
    ensures InRequest(s'.pc) && s'.ipc.answer == Some(b) ==>
              (InRequest(s.pc) && s.ipc.answer == Some(b)) || Present(s, b)
  {
    hide Inv, Handle, SpiStep, BeginRequest, WaitTurn, DeviceOk;
    if s.hang.None? {
      match e
      case Turn(tick) =>
        var i := Interrupted(s, tick.interrupts);
        match s.pc {
          case Idle =>
          case Waiting => WaitBrings(i, tick.expired);
          case Receiving(r) =>
            if s.fifo != [] {
            } else if !tick.expired {
              SpiStepLeaves(i, tick.transaction);
              if b in s'.fifo { SpiStepBrings(i, tick.transaction, tick, b); }
            }
          case Handling(r, p) => HandleBrings(i, p, tick.netlink);
        }
      case Request(command, response, size) =>
        if s.pc.Idle? { BeginBrings(s, command, response, size); }
      case Poll =>
    }
  }

  lemma WaitBrings(s: State, expired: bool)
    requires s.pc.Waiting?
    ensures var s' := WaitTurn(s, expired); s'.fifo == s.fifo && !s'.pc.Handling? && s'.ipc.answer == s.ipc.answer

  {
  }

  lemma SpiStepLeaves(s: State, t: Transaction)
    ensures var s' := SpiStep(s, t); s'.pc == s.pc && s'.ipc == s.ipc && s'.build == s.build
  {
  }

  lemma HandleBrings(s: State, b: Buffer, netlink: bool)
    requires BufferOk(s.build, b) && OfferOk(s)
    ensures var s' := Handle(s, b, netlink);
            && s'.fifo == s.fifo && s'.ipc.issued == s.ipc.issued && s'.ipc.offer == s.ipc.offer
            && (s'.ipc.answer == s.ipc.answer || s'.ipc.answer == Some(b))
  {
    hide GetReqId, GetApiId, Filled, TotalLength;
  }

  lemma BeginBrings(s: State, command: seq<Byte>, response: seq<Byte>, size: nat)
    requires EventOk(Request(command, response, size)) && s.pc.Idle?
    ensures var s' := BeginRequest(s, command, response, size);
            && s'.fifo == s.fifo && !s'.pc.Handling? && (InRequest(s'.pc) ==> s'.ipc.answer == None)
            && (InRequest(s'.pc) ==> s'.ipc.issued == s.ipc.issued + 1 && s'.ipc.offer == Offer(response, size))
  {
    hide GetApiId, WithReqId, Next, Wrap;
  }

  lemma StepInRequest(s: State, e: Event, s': State)
    requires IsStep(s, e, s') && Inv(s) && InRequest(s.pc)
    ensures InRequest(s'.pc) ==> s'.ipc.issued == s.ipc.issued && s'.ipc.offer == s.ipc.offer
    ensures s'.pc.Idle? && s'.ipc.status.Success? ==>
              Answered(s.ipc) && s'.ipc.response == s.ipc.response && s'.ipc.responseSize == s.ipc.responseSize
    ensures s'.pc.Idle? && s'.ipc.status.Error? ==>
              s'.ipc.response == s.ipc.offer.response && s'.ipc.responseSize == s.ipc.offer.size
  {
    hide Handle, SpiStep, BeginRequest, DeviceOk, PoolInv, QueueInv, MailboxInv, HangInv, Filled, OwnAnswer, Counter;
    if s.hang.None? {
      match e
      case Turn(tick) =>
        var i := Interrupted(s, tick.interrupts);
        match s.pc {
          case Idle =>
          case Waiting =>
          case Receiving(r) => SpiStepLeaves(i, tick.transaction);
          case Handling(r, p) => HandleBrings(i, p, tick.netlink);
        }
      case Request(_, _, _) =>
      case Poll =>
    }
  }

  ghost predicate Delivered(events: seq<Event>, from: nat, to: nat, b: Buffer)
    requires to <= |events|
  {
    exists m :: from < m < to && Delivers(events[m], b)
  }

  /** A request call from step i on, still under way in state k. */
  ghost predicate Calling(states: seq<State>, events: seq<Event>, build: Build, i: nat, k: nat) {
    && IsRun(states, events, build) && i < k <= |events|
    && events[i].Request? && states[i].pc.Idle? && states[i].hang.None?
    && forall j :: i < j <= k ==> InRequest(states[j].pc)
  }

  ghost predicate CallHistory(states: seq<State>, events: seq<Event>, i: nat, k: nat)
    requires i < k <= |events| && |states| == |events| + 1 && events[i].Request?
  {
    && states[k].ipc.issued == states[i].ipc.issued + 1
    && states[k].ipc.offer == Offer(events[i].response, events[i].size)
    && (forall b :: Present(states[k], b) ==> Delivered(events, i, k, b))
    && (states[k].ipc.answer.Some? ==> Delivered(events, i, k, states[k].ipc.answer.value))
  }

  lemma CallStarts(states: seq<State>, events: seq<Event>, build: Build, i: nat)
    requires Calling(states, events, build, i, i + 1)
    ensures CallHistory(states, events, i, i + 1)
  {
    RunKeepsInv(states, events, build, i);
    var s, s' := states[i], states[i + 1];
    assert IsStep(s, events[i], s');
    assert s.fifo == [] by { IdleIsEmpty(s); }
    hide Inv, BeginRequest;
    BeginBrings(s, events[i].command, events[i].response, events[i].size);
  }

  lemma IdleIsEmpty(s: State)
    requires Inv(s) && (s.pc.Idle? || s.pc.Waiting?)
    ensures s.fifo == []
  {
    hide IpcInv, PoolInv, MailboxInv;
  }

  lemma {:induction false} CallGoesOn(states: seq<State>, events: seq<Event>, build: Build, i: nat, k: nat)
    requires Calling(states, events, build, i, k)
    ensures CallHistory(states, events, i, k)
    decreases k
  {
    if k == i + 1 {
      CallStarts(states, events, build, i);
    } else {
      var j: nat := k - 1;
      CallGoesOn(states, events, build, i, j);
      RunKeepsInv(states, events, build, j);
      var s, e, s' := states[j], events[j], states[k];
      assert IsStep(s, e, s') && InRequest(s.pc) && InRequest(s'.pc);
      hide Inv, IsStep, IsRun, Delivers, Present, InRequest;
      StepInRequest(s, e, s');
      forall b | Present(s', b) ensures Delivered(events, i, k, b) {
        StepBrings(s, e, s', b);
        CallDelivers(events, i, j, b, Present(s, b));
      }
      if s'.ipc.answer.Some? {
        var b := s'.ipc.answer.value;
        StepBrings(s, e, s', b);
        assert Delivered(events, i, j, b);
        CallDelivers(events, i, j, b, true);
      }
    }
  }

  lemma CallDelivers(events: seq<Event>, i: nat, j: nat, b: Buffer, before: bool)
    requires i < j < |events|
    requires if before then Delivered(events, i, j, b) else Delivers(events[j], b)
    ensures Delivered(events, i, j + 1, b)
  {
    if before {
      var m :| i < m < j && Delivers(events[m], b);
    }
  }

  /**
   * Own answer only. In every run, a request that returns success holds in its response buffer the leading bytes
   * of an answer to that very request, delivered by the device while it was waiting; one that times out leaves
   * the buffer and the size as the caller passed them.
   */
  lemma RequestReturnsOwnAnswer(states: seq<State>, events: seq<Event>, build: Build, i: nat, k: nat)
    requires k < |events| && Calling(states, events, build, i, k) && states[k + 1].pc.Idle?
    ensures var n, s', offer := states[i].ipc.issued, states[k + 1], Offer(events[i].response, events[i].size);
            if s'.ipc.status.Success? then
              exists b :: Delivered(events, i, k, b) && IsAnswerTo(n, b)
                && AnswerCopied(offer, b, Offer(s'.ipc.response, s'.ipc.responseSize))
            else Offer(s'.ipc.response, s'.ipc.responseSize) == offer
  {
    CallGoesOn(states, events, build, i, k);
    RunKeepsInv(states, events, build, k);
    assert IsStep(states[k], events[k], states[k + 1]) && InRequest(states[k].pc);
    hide Inv, IsStep, IsRun, Delivered, Filled, Present, AnswerCopied, Answered, InRequest;
    StepInRequest(states[k], events[k], states[k + 1]);
    if states[k + 1].ipc.status.Success? {
      AnsweredIsCopied(states[k].ipc);
    }
  }

  lemma AnsweredIsCopied(ipc: Ipc)
    requires Answered(ipc)
    ensures ipc.issued > 0 && ipc.answer.Some? && IsAnswerTo(ipc.issued - 1, ipc.answer.value)
    ensures AnswerCopied(ipc.offer, ipc.answer.value, Offer(ipc.response, ipc.responseSize))
  {
    hide Filled, AnswerCopied, GetReqId, GetApiId, IdOf;
    FilledIsCopied(ipc.offer, ipc.answer.value);
  }

  predicate IsAnswerTo(n: nat, b: Buffer) {
    IsResponse(b) && b.origin == Answer(n) && GetReqId(b.data) == IdOf(n)
  }

  // ---------- the data phase ----------

  /**
   * A data phase without anything to send has a receive buffer and a length, and what the device announced fits the
   * buffer. But both sides clock the longer of the two lengths: the transfer fits the receive buffer exactly when the
   * pending command does, as it always does in the build on the module, and it stays within the command exactly when
   * the device announced no more bytes than the command has.
   */
  lemma TransferBounds(s: State, t: Transaction)
    requires MailboxInv(s.build, s.spi) && s.spi.held.Some? && TransferOf(s, t).Some?
    ensures var (transfer, rx) := TransferOf(s, t).value;
            && transfer.send == s.spi.tx
            && (transfer.send.None? ==> transfer.receive && transfer.length == rx)
            && (transfer.send.Some? ==> |transfer.send.value| == s.spi.txLength > 0)
            && (transfer.send.Some? ==> (transfer.length <= |transfer.send.value| <==> rx <= s.spi.txLength))
            && (transfer.receive <==> rx > 0)
            && rx <= transfer.length && rx <= BufferSize(s.build)
            && (transfer.length <= BufferSize(s.build) <==> s.spi.txLength <= BufferSize(s.build))
            && (s.build.OnModule? ==> transfer.length <= BufferSize(s.build))
  {
  }

  // ---------- buffers ----------

  lemma {:induction false} UptoCounts(n: nat, id: nat)
    ensures Upto(n)[id] == if id < n then 1 else 0
  {
    if n > 0 {
      UptoCounts(n - 1, id);
    }
  }

  lemma {:induction false} UptoSize(n: nat)
    ensures |Upto(n)| == n
  {
    if n > 0 {
      UptoSize(n - 1);
    }
  }

  /** In every state of every run each buffer created is in exactly one place, and no other buffer is anywhere. */
  lemma EachBufferInOnePlace(states: seq<State>, events: seq<Event>, build: Build, k: nat, id: nat)
    requires IsRun(states, events, build) && k < |states|
    ensures var s := states[k];
            Places(s.pool, s.fifo, s.spi.held, s.pc)[id] == if id < s.pool.created then 1 else 0
  {
    RunKeepsInv(states, events, build, k);
    UptoCounts(states[k].pool.created, id);
    hide IpcInv, QueueInv, MailboxInv, Places, Upto;
  }

  /** Created = freed + delivered + queued + held + being handled. */
  lemma BuffersAddUp(states: seq<State>, events: seq<Event>, build: Build, k: nat)
    requires IsRun(states, events, build) && k < |states|
    ensures var s := states[k];
            s.pool.created == |s.pool.freed| + |s.pool.delivered| + |s.fifo|
                              + (if s.spi.held.Some? then 1 else 0) + (if s.pc.Handling? then 1 else 0)
  {
    RunKeepsInv(states, events, build, k);
    var s := states[k];
    UptoSize(s.pool.created);
    hide IpcInv, MailboxInv, Upto, PacketOk;
    if s.fifo != [] {
      IdsSmall(s.fifo[0]);
      assert s.fifo == [s.fifo[0]];
    }
    hide Ids;
  }
}
