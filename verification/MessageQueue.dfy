/** The ring buffer of the build without operating system: it is a first-in-first-out queue. */
module MessageQueue {
  datatype Outcome = Ok | TimedOut | StillWaiting

  // ---------- the ring as a value ----------

  function Wrapped(i: nat, n: nat): nat
    requires i < 2 * n
  {
    if i < n then i else i - n
  }

  /** The messages in the order they were put. */
  function Ring<T>(slots: seq<T>, read: nat, count: nat): (s: seq<T>)
    requires read < |slots| && count <= |slots|
    ensures |s| == count
    ensures forall k :: 0 <= k < count ==> s[k] == slots[Wrapped(read + k, |slots|)]
  {
    seq(count, k requires 0 <= k < count => slots[Wrapped(read + k, |slots|)])
  }

  lemma RingPut<T>(slots: seq<T>, read: nat, count: nat, message: T)
    requires read < |slots| && count < |slots|
    ensures var write := Wrapped(read + count, |slots|);
            Ring(slots[write := message], read, count + 1) == Ring(slots, read, count) + [message]
  {
    var write := Wrapped(read + count, |slots|);
    var more, r := slots[write := message], Ring(slots, read, count);
    var s := Ring(more, read, count + 1);
    assert s[count] == message;
    forall k | 0 <= k < count ensures s[k] == r[k] {
      assert s[k] == more[Wrapped(read + k, |slots|)];
    }
    assert s[..count] == r && s == s[..count] + [s[count]];
  }

  lemma RingPop<T>(slots: seq<T>, read: nat, count: nat)
    requires read < |slots| && 0 < count <= |slots|
    ensures Ring(slots, read, count) ==
            [slots[read]] + Ring(slots, Wrapped(read + 1, |slots|), count - 1)
  {
    var s, r := Ring(slots, read, count), Ring(slots, Wrapped(read + 1, |slots|), count - 1);
    assert s[0] == slots[read];
    forall k | 0 <= k < count - 1 ensures s[k + 1] == r[k] {
      assert s[k + 1] == slots[Wrapped(read + (k + 1), |slots|)];
    }
    assert s[1..] == r && s == [s[0]] + s[1..];
  }

  lemma NextIndex(i: nat, n: nat)
    requires i < n
    ensures (i + 1) % n == Wrapped(i + 1, n)
  {
    if i + 1 == n {
      assert n % n == 0;
    } else {
      assert i + 1 < n;
    }
  }

  // ---------- the queue ----------

  class MessageQueue<T(0)> {
    var elementCountMax: nat
    var elementCountIn: nat
    var fifo: array<T>
    var readIndex: nat
    var writeIndex: nat

    ghost predicate Valid()
      reads this
    {
      && 0 < elementCountMax == fifo.Length
      && elementCountIn <= elementCountMax
      && readIndex < elementCountMax
      && writeIndex == Wrapped(readIndex + elementCountIn, elementCountMax)
    }

    ghost function Contents(): (s: seq<T>)
      reads this, fifo
      requires Valid()
      ensures |s| == elementCountIn
    {
      Ring(fifo[..], readIndex, elementCountIn)
    }

    constructor (messageCount: nat)
      requires 0 < messageCount
      ensures Valid() && Contents() == [] && elementCountMax == messageCount && fresh(fifo)
    {
      elementCountMax := messageCount;
      elementCountIn := 0;
      fifo := new T[messageCount];
      readIndex := 0;
      writeIndex := 0;
    }

    /** PutMessageQueue; `expired` are the answers of the clock to the successive checks of a full queue. */
    method Put(message: T, expired: seq<bool>) returns (status: Outcome)
      requires Valid()
      modifies this, fifo
      ensures Valid() && fifo == old(fifo) && elementCountMax == old(elementCountMax)
      ensures status == Ok <==> |old(Contents())| < elementCountMax
      ensures Contents() == if status == Ok then old(Contents()) + [message] else old(Contents())
      ensures status == StillWaiting ==> true !in expired
      ensures status == TimedOut ==> true in expired
    {
      var checks := 0;
      while elementCountIn == elementCountMax
        invariant 0 <= checks <= |expired| && true !in expired[..checks]
        decreases |expired| - checks
      {
        if checks == |expired| {
          assert expired[..checks] == expired;
          return StillWaiting;
        }
        if expired[checks] {
          return TimedOut;
        }
        checks := checks + 1;
      }
      hide Ring;
      RingPut(fifo[..], readIndex, elementCountIn, message);
      NextIndex(writeIndex, elementCountMax);
      ghost var before := fifo[..];
      fifo[writeIndex] := message;
      assert fifo[..] == before[writeIndex := message];
      elementCountIn := elementCountIn + 1;
      writeIndex := (writeIndex + 1) % elementCountMax;
      status := Ok;
    }

    /** The part of GetMessageQueue after its waiting loop. */
    method Pop() returns (message: T)
      requires Valid() && Contents() != []
      modifies this
      ensures Valid() && fifo == old(fifo) && elementCountMax == old(elementCountMax)
      ensures old(Contents()) == [message] + Contents()
    {
      hide Ring;
      RingPop(fifo[..], readIndex, elementCountIn);
      NextIndex(readIndex, elementCountMax);
      message := fifo[readIndex];
      elementCountIn := elementCountIn - 1;
      readIndex := (readIndex + 1) % elementCountMax;
    }
  }

  /** CreateMessageQueue: a queue, or none for a capacity out of the range the source allows. */
  method CreateMessageQueue<T(0)>(messageCount: nat) returns (queue: MessageQueue?<T>)
    ensures queue != null <==> 0 < messageCount < 16
    ensures queue != null ==> fresh(queue) && fresh(queue.fifo)
                              && queue.Valid() && queue.Contents() == [] && queue.elementCountMax == messageCount
  {
    queue := null;
    if 0 < messageCount < 16 {
      queue := new MessageQueue(messageCount);
    }
  }
}
