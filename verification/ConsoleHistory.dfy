/** The console's five history slots, their counter, and the strings they own. */
module ConsoleHistory {
  import opened History

  /** A null pointer, or a string the console allocated, with the address it got. */
  datatype Slot = Null | Str(address: nat, text: Line)

  // ---------- the slots as a value ----------

  /** Occupied slots come first. */
  predicate Packed(slots: seq<Slot>, n: nat) {
    n <= |slots| == SLOTS && forall k :: 0 <= k < SLOTS ==> (slots[k].Str? <==> k < n)
  }

  function Texts(slots: seq<Slot>, n: nat): (list: seq<Line>)
    requires Packed(slots, n)
    ensures |list| == n && forall k :: 0 <= k < n ==> list[k] == slots[k].text
  {
    seq(n, k requires 0 <= k < n => slots[k].text)
  }

  function Count(slots: seq<Slot>): (n: nat)
    ensures n <= |slots|
    ensures forall k :: 0 <= k < n ==> slots[k].Str?
    ensures n < |slots| ==> slots[n].Null?
  {
    if slots == [] || slots[0].Null? then 0 else 1 + Count(slots[1..])
  }

  /** The slots after a pointer is put in front of the first i and slot i is given up. */
  function Front(slots: seq<Slot>, i: nat, first: Slot): seq<Slot>
    requires i < |slots|
  {
    [first] + slots[..i] + slots[i + 1..]
  }

  // ---------- who owns the strings ----------

  function One(slot: Slot, a: nat): nat {
    if slot.Str? && slot.address == a then 1 else 0
  }

  /** How many slots hold the string at an address. */
  function Held(slots: seq<Slot>, a: nat): nat {
    if slots == [] then 0 else One(slots[0], a) + Held(slots[1..], a)
  }

  /** How many times it was deleted. */
  function Deletions(deleted: seq<nat>, a: nat): nat {
    if deleted == [] then 0
    else Deletions(deleted[..|deleted| - 1], a) + (if deleted[|deleted| - 1] == a then 1 else 0)
  }

  /** Each string allocated is held by one slot, or has been deleted once; no other address is touched. */
  ghost predicate Owned(slots: seq<Slot>, deleted: seq<nat>, top: nat) {
    forall a: nat :: Held(slots, a) + Deletions(deleted, a) == if a < top then 1 else 0
  }

  lemma {:induction false} HeldConcat(s: seq<Slot>, t: seq<Slot>, a: nat)
    ensures Held(s + t, a) == Held(s, a) + Held(t, a)
  {
    if s == [] {
      assert s + t == t;
    } else {
      assert (s + t)[1..] == s[1..] + t;
      HeldConcat(s[1..], t, a);
    }
  }

  lemma HeldAt(slots: seq<Slot>, i: nat, a: nat)
    requires i < |slots|
    ensures Held(slots, a) == Held(slots[..i], a) + One(slots[i], a) + Held(slots[i + 1..], a)
  {
    assert slots == slots[..i] + slots[i..];
    HeldConcat(slots[..i], slots[i..], a);
    assert slots[i..][1..] == slots[i + 1..];
  }

  lemma HeldFront(slots: seq<Slot>, i: nat, first: Slot, a: nat)
    requires i < |slots|
    ensures Held(Front(slots, i, first), a) + One(slots[i], a) == Held(slots, a) + One(first, a)
  {
    HeldAt(slots, i, a);
    HeldConcat([first] + slots[..i], slots[i + 1..], a);
    assert ([first] + slots[..i])[1..] == slots[..i];
  }

  lemma DeletedOnce(deleted: seq<nat>, x: nat, a: nat)
    ensures Deletions(deleted + [x], a) == Deletions(deleted, a) + if x == a then 1 else 0
  {
    assert (deleted + [x])[..|deleted|] == deleted;
  }

  lemma OwnedMoved(slots: seq<Slot>, i: nat, deleted: seq<nat>, top: nat)
    requires i < |slots| && Owned(slots, deleted, top)
    ensures Owned(Front(slots, i, slots[i]), deleted, top)
  {
    hide Front, Held;
    forall a: nat ensures Held(Front(slots, i, slots[i]), a) == Held(slots, a) {
      HeldFront(slots, i, slots[i], a);
    }
  }

  lemma OwnedNew(slots: seq<Slot>, i: nat, line: Line, deleted: seq<nat>, top: nat)
    requires i < |slots| && slots[i].Null? && Owned(slots, deleted, top)
    ensures Owned(Front(slots, i, Str(top, line)), deleted, top + 1)
  {
    hide Front, Held, Deletions;
    forall a: nat
      ensures Held(Front(slots, i, Str(top, line)), a) + Deletions(deleted, a) == if a < top + 1 then 1 else 0
    {
      HeldFront(slots, i, Str(top, line), a);
    }
  }

  lemma OwnedEvicted(slots: seq<Slot>, i: nat, line: Line, deleted: seq<nat>, top: nat)
    requires i < |slots| && slots[i].Str? && Owned(slots, deleted, top)
    ensures Owned(Front(slots, i, Str(top, line)), deleted + [slots[i].address], top + 1)
  {
    hide Front, Held, Deletions;
    forall a: nat
      ensures Held(Front(slots, i, Str(top, line)), a) + Deletions(deleted + [slots[i].address], a)
           == if a < top + 1 then 1 else 0
    {
      HeldFront(slots, i, Str(top, line), a);
      DeletedOnce(deleted, slots[i].address, a);
    }
  }

  lemma FrontAt(slots: seq<Slot>, i: nat, first: Slot, k: nat)
    requires i < |slots| && k < |slots|
    ensures Front(slots, i, first)[k] == if k == 0 then first else if k <= i then slots[k - 1] else slots[k]
    ensures |Front(slots, i, first)| == |slots|
  {
  }

  ghost predicate IsFront(slots: seq<Slot>, i: nat, first: Slot, more: seq<Slot>) {
    && |more| == |slots| && i < |slots|
    && forall k :: 0 <= k < |slots| ==> more[k] == if k == 0 then first else if k <= i then slots[k - 1] else slots[k]
  }

  lemma FrontIsFront(slots: seq<Slot>, i: nat, first: Slot)
    requires i < |slots|
    ensures IsFront(slots, i, first, Front(slots, i, first))
  {
    forall k | 0 <= k < |slots|
      ensures Front(slots, i, first)[k] == if k == 0 then first else if k <= i then slots[k - 1] else slots[k]
    {
      FrontAt(slots, i, first, k);
    }
  }

  lemma MoveTexts(slots: seq<Slot>, n: nat, i: nat)
    requires Packed(slots, n) && i < n && Distinct(Texts(slots, n))
    ensures var moved := Front(slots, i, slots[i]);
            Packed(moved, n) && Texts(moved, n) == Use(Texts(slots, n), slots[i].text)
  {
    var moved, list, line := Front(slots, i, slots[i]), Texts(slots, n), slots[i].text;
    FrontIsFront(slots, i, slots[i]);
    WithoutAt(list, i);
    hide Without, Front;
    assert Texts(moved, n) == [line] + (list[..i] + list[i + 1..]);
  }

  /** A string is moved to the front. */
  lemma MoveToFront(slots: seq<Slot>, n: nat, i: nat, deleted: seq<nat>, top: nat)
    requires Packed(slots, n) && i < n && Distinct(Texts(slots, n)) && Owned(slots, deleted, top)
    ensures var moved := Front(slots, i, slots[i]);
            Packed(moved, n) && Texts(moved, n) == Use(Texts(slots, n), slots[i].text)
            && Owned(moved, deleted, top)
  {
    MoveTexts(slots, n, i);
    hide Front, Texts, Use, Owned;
    OwnedMoved(slots, i, deleted, top);
  }

  lemma NewTexts(slots: seq<Slot>, n: nat, line: Line, address: nat)
    requires Packed(slots, n) && n < SLOTS && line !in Texts(slots, n)
    ensures var more := Front(slots, n, Str(address, line));
            Packed(more, n + 1) && Texts(more, n + 1) == Use(Texts(slots, n), line)
  {
    var more, list := Front(slots, n, Str(address, line)), Texts(slots, n);
    FrontIsFront(slots, n, Str(address, line));
    WithoutAbsent(list, line);
    hide Without, Front;
    assert Texts(more, n + 1) == [line] + list;
  }

  /** A new string goes in front and takes up an empty slot. */
  lemma NewInFront(slots: seq<Slot>, n: nat, line: Line, deleted: seq<nat>, top: nat)
    requires Packed(slots, n) && n < SLOTS && line !in Texts(slots, n) && Owned(slots, deleted, top)
    ensures var more := Front(slots, n, Str(top, line));
            Packed(more, n + 1) && Texts(more, n + 1) == Use(Texts(slots, n), line)
            && Owned(more, deleted, top + 1)
  {
    NewTexts(slots, n, line, top);
    hide Front, Texts, Use, Owned;
    OwnedNew(slots, n, line, deleted, top);
  }

  /** With all slots taken the last string makes room, and is deleted. */
  lemma NewEvictsLast(slots: seq<Slot>, line: Line, deleted: seq<nat>, top: nat)
    requires Packed(slots, SLOTS) && line !in Texts(slots, SLOTS) && Owned(slots, deleted, top)
    ensures var more := Front(slots, SLOTS - 1, Str(top, line));
            Packed(more, SLOTS) && Texts(more, SLOTS) == Use(Texts(slots, SLOTS), line)
            && Owned(more, deleted + [slots[SLOTS - 1].address], top + 1)
  {
    EvictTexts(slots, line, top);
    hide Front, Texts, Use, Owned;
    OwnedEvicted(slots, SLOTS - 1, line, deleted, top);
  }

  lemma EvictTexts(slots: seq<Slot>, line: Line, address: nat)
    requires Packed(slots, SLOTS) && line !in Texts(slots, SLOTS)
    ensures var more := Front(slots, SLOTS - 1, Str(address, line));
            Packed(more, SLOTS) && Texts(more, SLOTS) == Use(Texts(slots, SLOTS), line)
  {
    var more, list := Front(slots, SLOTS - 1, Str(address, line)), Texts(slots, SLOTS);
    FrontIsFront(slots, SLOTS - 1, Str(address, line));
    WithoutAbsent(list, line);
    hide Without, Front;
    assert Texts(more, SLOTS) == [line] + list[..SLOTS - 1];
  }

  // ---------- the console's fields ----------

  class ConsoleHistory {
    const history: array<Slot>
    var historyCount: nat
    /** The next address `new` gives out. */
    var heap: nat
    ghost var deleted: seq<nat>

    ghost function Entries(): nat
      reads this, history
    {
      Count(history[..])
    }

    ghost predicate Valid()
      reads this, history
    {
      && history.Length == SLOTS
      && Packed(history[..], Entries())
      && Distinct(Texts(history[..], Entries()))
      && historyCount == (if Entries() < SLOTS then Entries() else SLOTS - 1)
      && Owned(history[..], deleted, heap)
    }

    /** The commands remembered, latest first. */
    ghost function Lines(): seq<Line>
      reads this, history
      requires Valid()
    {
      Texts(history[..], Entries())
    }

    constructor ()
      ensures Valid() && Lines() == [] && fresh(history)
    {
      history := new Slot[SLOTS](_ => Null);
      historyCount, heap, deleted := 0, 0, [];
      new;
      forall a: nat ensures Held(history[..], a) == 0 {
        NoneHeld(history[..], a);
      }
      CountPacked(history[..], 0);
    }

    /** The shifting loop: everything before slot i moves one down. */
    method Shift(i: nat)
      requires history.Length == SLOTS && i < SLOTS
      modifies history
      ensures forall k :: 0 < k <= i ==> history[k] == old(history[k - 1])
      ensures forall k :: i < k < SLOTS ==> history[k] == old(history[k])
      ensures history[0] == old(history[0])
    {
      var j := i;
      while j > 0
        invariant 0 <= j <= i
        invariant forall k :: j < k <= i ==> history[k] == old(history[k - 1])
        invariant forall k :: 0 <= k <= j || i < k < SLOTS ==> history[k] == old(history[k])
      {
        history[j] := history[j - 1];
        j := j - 1;
      }
    }

    /** Shift, then the given pointer in front. */
    method PutInFront(i: nat, first: Slot)
      requires history.Length == SLOTS && i < SLOTS
      modifies history
      ensures history[..] == Front(old(history[..]), i, first)
    {
      Shift(i);
      history[0] := first;
      ghost var slots := old(history[..]);
      FrontIsFront(slots, i, first);
      hide Front;
    }

    method AddInHistory(command: Line)
      requires Valid()
      modifies this, history
      ensures Valid() && Lines() == Use(old(Lines()), command)
      ensures historyCount == if |Lines()| < 4 then |Lines()| else 4
      ensures deleted == if |old(Lines())| == 5 && command !in old(Lines())
                         then old(deleted) + [old(history[4].address)] else old(deleted)
    {
      hide Owned, Front, Texts, Use, Count;
      ghost var slots, n := history[..], Entries();
      if historyCount == 0 {
        forall k | 0 <= k < SLOTS {
          history[k] := Null;
        }
        assert history[..] == slots;
      }
      var i := 0;
      while i < SLOTS
        invariant 0 <= i <= n && history[..] == slots && historyCount == old(historyCount) && Valid()
        invariant deleted == old(deleted) && heap == old(heap)
        invariant forall k :: 0 <= k < i ==> slots[k].text != command
      {
        if history[i].Str? && history[i].text == command {
          MoveToFront(slots, n, i, deleted, heap);
          UseDistinct(Texts(slots, n), command);
          PutInFront(i, history[i]);
          CountPacked(history[..], n);
          return;
        }
        if history[i].Null? {
          NewInFront(slots, n, command, deleted, heap);
          UseDistinct(Texts(slots, n), command);
          PutInFront(i, Str(heap, command));
          CountPacked(history[..], n + 1);
          heap := heap + 1;
          if historyCount < SLOTS - 1 {
            historyCount := historyCount + 1;
          }
          return;
        }
        i := i + 1;
      }
      NewEvictsLast(slots, command, deleted, heap);
      UseDistinct(Texts(slots, n), command);
      deleted := deleted + [history[SLOTS - 1].address];
      PutInFront(SLOTS - 1, Str(heap, command));
      CountPacked(history[..], SLOTS);
      heap := heap + 1;
    }

    /** Every string still held is deleted. */
    method FreeHistory()
      requires Valid()
      modifies this, history
      ensures Valid() && Lines() == [] && historyCount == 0 && heap == old(heap)
      ensures forall a: nat :: Deletions(deleted, a) == if a < heap then 1 else 0
    {
      hide Held, Deletions, Texts;
      var i := 0;
      while i < SLOTS
        invariant 0 <= i <= SLOTS && heap == old(heap)
        invariant Owned(history[..], deleted, heap)
        invariant forall k :: 0 <= k < i ==> history[k] == Null
      {
        if history[i].Str? {
          DropOwned(history[..], i, deleted, heap);
          ghost var slots := history[..];
          deleted := deleted + [history[i].address];
          history[i] := Null;
          assert history[..] == slots[i := Null];
        }
        i := i + 1;
      }
      historyCount := 0;
      CountPacked(history[..], 0);
      forall a: nat ensures Held(history[..], a) == 0 {
        NoneHeld(history[..], a);
      }
    }
  }

  lemma DropOwned(slots: seq<Slot>, i: nat, deleted: seq<nat>, top: nat)
    requires i < |slots| && slots[i].Str? && Owned(slots, deleted, top)
    ensures Owned(slots[i := Null], deleted + [slots[i].address], top)
  {
    var less := slots[i := Null];
    assert less[..i] == slots[..i] && less[i + 1..] == slots[i + 1..];
    hide Held, Deletions;
    forall a: nat
      ensures Held(less, a) + Deletions(deleted + [slots[i].address], a) == Held(slots, a) + Deletions(deleted, a)
    {
      HeldAt(slots, i, a);
      HeldAt(less, i, a);
      DeletedOnce(deleted, slots[i].address, a);
    }
  }

  lemma {:induction false} NoneHeld(slots: seq<Slot>, a: nat)
    requires forall k :: 0 <= k < |slots| ==> slots[k].Null?
    ensures Held(slots, a) == 0
  {
    if slots != [] {
      NoneHeld(slots[1..], a);
    }
  }

  lemma {:induction false} CountPacked(slots: seq<Slot>, n: nat)
    requires Packed(slots, n)
    ensures Count(slots) == n
  {
    var c := Count(slots);
    assert c < SLOTS ==> (slots[c].Str? <==> c < n);
    assert n < SLOTS ==> slots[n].Null?;
  }

  lemma UseDistinct(list: seq<Line>, line: Line)
    requires Distinct(list)
    ensures Distinct(Use(list, line))
  {
    WithoutDistinct(list, line);
    WithoutMembers(list, line, line);
  }
}
