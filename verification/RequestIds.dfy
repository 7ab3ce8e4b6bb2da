/** Request identifiers and the six-byte header they travel in. */
module RequestIds {
  import opened Words

  const RESET: Word := 0xFFFF_FFFF
  /** The counter before the first request. */
  const START: Word := 0xFFFF_FFFD
  /** How many requests it takes for an identifier to come round again. */
  const PERIOD: nat := 0xFFFF_FFFF

  /** The counter moves on by one and skips the reset value. */
  function Next(last: Word): Word {
    var id := Wrap(last + 1);
    if id == RESET then Wrap(id + 1) else id
  }

  /** The counter after n requests. */
  function Counter(n: nat): Word {
    if n == 0 then START else Next(Counter(n - 1))
  }

  /** The identifier of request n, counting from 0. */
  function IdOf(n: nat): Word {
    Counter(n + 1)
  }

  lemma StepFormula(n: nat)
    ensures (PERIOD - 1 + n + 1) % PERIOD == Next((PERIOD - 1 + n) % PERIOD)
  {
  }

  lemma {:induction false} Formula(n: nat)
    ensures IdOf(n) == (PERIOD - 1 + n) % PERIOD
  {
    if n == 0 {
      assert Counter(1) == Next(START);
    } else {
      Formula(n - 1);
      StepFormula(n - 1);
    }
  }

  lemma NeverReset(n: nat)
    ensures IdOf(n) != RESET
  {
    Formula(n);
  }

  lemma SameResidue(a: nat, b: nat)
    requires a <= b < a + PERIOD && a % PERIOD == b % PERIOD
    ensures a == b
  {
    assert a == PERIOD * (a / PERIOD) + a % PERIOD;
    assert b == PERIOD * (b / PERIOD) + b % PERIOD;
  }

  /** Within one period, equal identifiers belong to the same request. */
  lemma Distinct(m: nat, n: nat)
    requires m <= n < m + PERIOD && IdOf(m) == IdOf(n)
    ensures m == n
  {
    Formula(m);
    Formula(n);
    SameResidue(PERIOD - 1 + m, PERIOD - 1 + n);
  }

  /** And no sooner: after a whole period the identifier does come back. */
  lemma ComesRound(n: nat)
    ensures IdOf(n + PERIOD) == IdOf(n)
  {
    hide IdOf;
    Formula(n);
    Formula(n + PERIOD);
    AddPeriod(PERIOD - 1 + n);
  }

  lemma AddPeriod(a: nat)
    ensures (a + PERIOD) % PERIOD == a % PERIOD
  {
    var q, r := a / PERIOD, a % PERIOD;
    assert a + PERIOD == PERIOD * (q + 1) + r;
  }

  // ---------- header ----------

  const HEADER_SIZE: nat := 6

  function GetReqId(buffer: seq<Byte>): Word
    requires |buffer| >= HEADER_SIZE
  {
    FromBytes(buffer[0], buffer[1], buffer[2], buffer[3])
  }

  function Short(low: nat, high: nat): nat {
    high * 0x100 + low
  }

  function GetApiId(buffer: seq<Byte>): (api: nat)
    requires |buffer| >= HEADER_SIZE
    ensures api < 0x1_0000
  {
    Short(buffer[4], buffer[5])
  }

  /** A command with its identifier filled in. */
  function WithReqId(command: seq<Byte>, id: Word): (r: seq<Byte>)
    requires |command| >= HEADER_SIZE
    ensures |r| == |command|
  {
    [ByteOf(id, 0), ByteOf(id, 1), ByteOf(id, 2), ByteOf(id, 3)] + command[4..]
  }

  method SetReqId(buffer: array<Byte>, id: Word)
    requires buffer.Length >= HEADER_SIZE
    modifies buffer
    ensures buffer[..] == WithReqId(old(buffer[..]), id)
  {
    hide ByteOf;
    ghost var before := buffer[..];
    buffer[0] := ByteOf(id, 0);
    buffer[1] := ByteOf(id, 1);
    buffer[2] := ByteOf(id, 2);
    buffer[3] := ByteOf(id, 3);
    assert buffer[4..] == before[4..];
  }

  /** The identifier written is the identifier read; the command code and the parameters are untouched. */
  lemma HeaderRoundTrip(command: seq<Byte>, id: Word)
    requires |command| >= HEADER_SIZE
    ensures var r := WithReqId(command, id);
            GetReqId(r) == id && GetApiId(r) == GetApiId(command) && r[4..] == command[4..]
  {
    FromBytesOfBytes(id);
    hide FromBytes, ByteOf;
    var r := WithReqId(command, id);
    assert r[4] == command[4] && r[5] == command[5];
  }
}
