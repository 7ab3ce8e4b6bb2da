/** Short runs of the driver: one that hangs, one whose transfer runs past the command, one past the receive buffer. */
module DriverExamples {
  import opened Words
  import opened Text
  import opened RequestIds
  import opened DriverModel
  import opened DriverSafety
  import opened DriverRuns

  /** A transaction in which the hardware does its part and the device sends a packet of its own. */
  function Unasked(len: nat, contents: seq<Byte>): Transaction
    requires len <= 0xFFFF
  {
    Transaction(true, true, Some(SlaveHeader(SPI_READ, len, 0xFFFF - len)), true, true, contents, Unsolicited)
  }

  /** A buffer that begins with a Wi-Fi status event of status 0. */
  function NoStatus(build: Build): (data: seq<Byte>)
    ensures |data| == BufferSize(build)
  {
    seq(BufferSize(build), k => if k == 4 then 0x01 else if k == 5 then 0x81 else 0)
  }

  lemma NoStatusIsUnknown(build: Build)
    ensures IsUnknownStatus(Buffer(0, 7, NoStatus(build), Unsolicited))
  {
  }

  lemma UnaskedIsOk(build: Build, issued: nat, len: nat)
    requires len <= 0xFFFF
    ensures DeviceOk(build, issued, Unasked(len, NoStatus(build)))
  {
  }

  function Quiet(build: Build, len: nat, interrupts: nat): Tick
    requires len <= 0xFFFF
  {
    Tick(false, interrupts, Unasked(len, NoStatus(build)), false)
  }

  // ---------- a run that hangs ----------

  function HangingEvents(build: Build): seq<Event> {
    [Poll, Turn(Quiet(build, 7, 1)), Turn(Quiet(build, 7, 0)), Turn(Quiet(build, 7, 0))]
  }

  /** A woken SPI step takes the packet in. */
  lemma PacketComes(s: State, len: nat)
    requires 0 < len <= BufferSize(s.build) && s.spi == Spi(None, 0, 1, None) && s.pool.created == 0 && s.fifo == []
    ensures var s', b := SpiStep(s, Unasked(len, NoStatus(s.build))), Buffer(0, len, NoStatus(s.build), Unsolicited);
            && s'.fifo == [b] && s'.spi == Spi(None, 0, 0, None)
            && s'.pc == s.pc && s'.hang == s.hang && s'.ipc == s.ipc && s'.build == s.build
  {
    hide NoStatus;
  }

  lemma Awake(s: State, n: nat)
    requires s.spi.txRx == 0 && n <= 1
    ensures Interrupted(s, n) == s.(spi := s.spi.(txRx := n))
  {
  }

  lemma PollStep(build: Build)
    ensures IsStep(Initial(build), Poll, Initial(build).(pc := Receiving(false)))
  {
  }

  lemma ReceiveStep(s: State, tick: Tick)
    requires s.pc.Receiving? && s.fifo == [] && s.hang.None? && WellTyped(s)
    requires !tick.expired && DeviceOk(s.build, s.ipc.issued, tick.transaction)
    ensures IsStep(s, Turn(tick), SpiStep(Interrupted(s, tick.interrupts), tick.transaction))
  {
    hide SpiStep, DeviceOk, Wrap, Handle, BeginRequest;
  }

  lemma TakeStep(s: State, tick: Tick, b: Buffer)
    requires s.pc == Receiving(false) && s.fifo == [b] && s.hang.None? && WellTyped(s) && s.spi.txRx == 0
    requires tick.interrupts == 0 && DeviceOk(s.build, s.ipc.issued, tick.transaction)
    ensures IsStep(s, Turn(tick), s.(fifo := [], pc := Handling(false, b)))
  {
    hide SpiStep, DeviceOk, Wrap, Handle, BeginRequest, Interrupted;
    Awake(s, 0);
    assert [b][1..] == [];
  }

  lemma HandleStep(s: State, tick: Tick, b: Buffer)
    requires s.pc == Handling(false, b) && s.hang.None? && WellTyped(s) && s.spi.txRx == 0
    requires tick.interrupts == 0 && DeviceOk(s.build, s.ipc.issued, tick.transaction)
    ensures IsStep(s, Turn(tick), Handle(s, b, tick.netlink).(pc := Idle))
  {
    hide SpiStep, DeviceOk, Wrap, Handle, BeginRequest, Interrupted;
    Awake(s, 0);
  }

  /** The device can stop the driver with one packet: the background poll that handles it never returns. */
  lemma HangingRun(build: Build) returns (states: seq<State>)
    ensures IsRun(states, HangingEvents(build), build) && states[4].hang == Some(UnknownWiFiStatus)
  {
    hide NoStatus, GetApiId, Interrupted, SpiStep, Handle, DeviceOk, IsUnknownStatus, IsStep, Wrap;
    var b := Buffer(0, 7, NoStatus(build), Unsolicited);
    NoStatusIsUnknown(build);
    UnaskedIsOk(build, 0, 7);
    var s0 := Initial(build);
    PollStep(build);
    var s1, woken := s0.(pc := Receiving(false)), Quiet(build, 7, 1);
    Awake(s1, 1);
    PacketComes(Interrupted(s1, 1), 7);
    ReceiveStep(s1, woken);
    var s2, quiet := SpiStep(Interrupted(s1, 1), woken.transaction), Quiet(build, 7, 0);
    TakeStep(s2, quiet, b);
    var s3 := s2.(fifo := [], pc := Handling(false, b));
    HandleStep(s3, quiet, b);
    HandleHangs(s3, b, false);
    states := [s0, s1, s2, s3, Handle(s3, b, false).(pc := Idle)];
  }

  // ---------- the first request, inside the loop that waits for packets ----------

  predicate FirstCommand(build: Build, command: seq<Byte>) {
    HEADER_SIZE <= |command| <= SPI_MAX_BYTE_COUNT && CommandAllowed(build, GetApiId(command), |command|)
  }

  lemma FirstRequest(build: Build, command: seq<Byte>)
    requires FirstCommand(build, command)
    ensures var s := BeginRequest(Initial(build), command, [], 0);
            && s.pc.Waiting? && s.ipc.sem == 0 && s.ipc.issued == 1 && s.hang.None? && s.build == build
            && s.spi.tx.Some? && |s.spi.tx.value| == s.spi.txLength == |command| && s.spi.held.None?
            && OfferOk(s)
  {
    hide Next, Wrap, GetApiId, WithReqId;
  }

  lemma RequestStep(build: Build, command: seq<Byte>)
    requires FirstCommand(build, command)
    ensures IsStep(Initial(build), Request(command, [], 0), BeginRequest(Initial(build), command, [], 0))
  {
    hide BeginRequest, GetApiId;
  }

  lemma WaitStep(s: State, tick: Tick)
    requires s.pc.Waiting? && s.ipc.sem == 0 && s.hang.None? && OfferOk(s)
    requires !tick.expired && DeviceOk(s.build, s.ipc.issued, tick.transaction)
    ensures IsStep(s, Turn(tick), Interrupted(s, tick.interrupts).(pc := Receiving(true)))
  {
    hide BeginRequest, DeviceOk, Handle, SpiStep;
  }

  function Polling(build: Build, command: seq<Byte>): State
    requires FirstCommand(build, command)
  {
    Interrupted(BeginRequest(Initial(build), command, [], 0), 0).(pc := Receiving(true))
  }

  lemma PollingHolds(build: Build, command: seq<Byte>)
    requires FirstCommand(build, command)
    ensures var s := Polling(build, command);
            && s.build == build && s.pc == Receiving(true) && s.spi.held.None? && s.ipc.issued == 1
            && s.spi.tx.Some? && |s.spi.tx.value| == s.spi.txLength == |command|
  {
    hide BeginRequest, Initial, Wrap, FirstCommand;
    FirstRequest(build, command);
  }

  /** Two steps lead there. */
  lemma PollingIsReached(build: Build, command: seq<Byte>) returns (states: seq<State>, events: seq<Event>)
    requires FirstCommand(build, command)
    ensures IsRun(states, events, build) && states[|states| - 1] == Polling(build, command)
  {
    hide BeginRequest, Initial, IsStep, DeviceOk, Wrap, NoStatus, CommandAllowed, GetApiId, Quiet;
    var s0, tick := Initial(build), Quiet(build, 1, 0);
    var s1 := BeginRequest(s0, command, [], 0);
    FirstRequest(build, command);
    RequestStep(build, command);
    QuietIs(build, 1, 0);
    WaitStep(s1, tick);
    states, events := [s0, s1, Polling(build, command)], [Request(command, [], 0), Turn(tick)];
  }

  lemma QuietIs(build: Build, len: nat, interrupts: nat)
    requires len <= 0xFFFF
    ensures var tick := Quiet(build, len, interrupts);
            !tick.expired && tick.interrupts == interrupts
            && forall issued :: DeviceOk(build, issued, tick.transaction)
  {
    forall issued ensures DeviceOk(build, issued, Quiet(build, len, interrupts).transaction) {
      UnaskedIsOk(build, issued, len);
    }
  }

  // ---------- what the device may announce there ----------

  /** A transaction the device may make, whose data phase sends the pending command and clocks so many bytes. */
  predicate Clocks(s: State, t: Transaction, length: nat) {
    && DeviceOk(s.build, s.ipc.issued, t) && s.spi.tx.Some? && Allocate(s).spi.held.Some?
    && TransferOf(Allocate(s), t).Some? && TransferOf(Allocate(s), t).value.0 == Transfer(s.spi.tx, true, length)
  }

  lemma Announced(s: State, len: nat)
    requires s.spi.tx.Some? && s.spi.held.None? && 0 < len <= BufferSize(s.build)
    ensures Clocks(s, Unasked(len, NoStatus(s.build)), Max(s.spi.txLength, len))
  {
    hide NoStatus, DeviceOk;
    UnaskedIsOk(s.build, s.ipc.issued, len);
  }

  const COMMAND: seq<Byte> := [0, 0, 0, 0, 1, 0]

  lemma CommandIsAllowed(build: Build)
    ensures FirstCommand(build, COMMAND)
  {
  }

  /** A command of six bytes while the device announces a hundred: the transfer clocks a hundred bytes out of it. */
  lemma CommandIsOverread(build: Build) returns (states: seq<State>, events: seq<Event>)
    ensures IsRun(states, events, build)
    ensures var s := states[|states| - 1];
            && s.spi.tx.Some? && |s.spi.tx.value| == 6
            && exists t :: Clocks(s, t, 100)
  {
    CommandIsAllowed(build);
    hide Polling, Clocks, FirstCommand;
    PollingHolds(build, COMMAND);
    states, events := PollingIsReached(build, COMMAND);
    Announced(Polling(build, COMMAND), 100);
  }

  /** A certificate command: longer than a buffer of the build with network bypass, and allowed. */
  function Certificate(): (command: seq<Byte>)
    ensures |command| == 2000
  {
    seq(2000, k => if k == 4 then 0x0F else if k == 5 then 0x01 else 0)
  }

  lemma CertificateIsAllowed()
    ensures FirstCommand(Bypass, Certificate())
  {
  }

  /** With network bypass, a certificate of 2000 bytes while the device announces one byte: the transfer clocks two
      thousand bytes into a buffer of 1542. */
  lemma BufferIsOverrun() returns (states: seq<State>, events: seq<Event>)
    ensures IsRun(states, events, Bypass)
    ensures var s := states[|states| - 1];
            && Allocate(s).spi.held.Some? && Allocate(s).spi.held.value.size == 1542
            && exists t :: Clocks(s, t, 2000)
  {
    CertificateIsAllowed();
    hide Polling, Clocks, FirstCommand, Certificate;
    PollingHolds(Bypass, Certificate());
    states, events := PollingIsReached(Bypass, Certificate());
    Announced(Polling(Bypass, Certificate()), 1);
  }
}
