/** The console: the input array edited in place, with the history and the command table at hand. */
module Console {
  import opened Words
  import opened Text
  import opened CommandMatch
  import opened LineEditor
  import H = ConsoleHistory
  import History

  // ---------- the array and the line ----------

  /** The text, then zeros to the end of the array. */
  ghost predicate Shows(buffer: array<Byte>, text: seq<Byte>)
    reads buffer
  {
    && buffer.Length == MAX_INPUT_LINE && |text| <= MAX_INPUT_LINE
    && (forall k :: 0 <= k < |text| ==> buffer[k] == text[k])
    && (forall k :: |text| <= k < MAX_INPUT_LINE ==> buffer[k] == 0)
  }

  predicate HasTerminator(bytes: seq<Byte>) {
    exists k :: 0 <= k < |bytes| && bytes[k] == 0
  }

  /**
   * The array has no terminator after a key exactly when a character was typed into a line of 79, not over one of
   * them. If it was inserted before the end, the line is printed in that state; the cut to 79 comes after.
   */
  lemma UnterminatedExactly(buffer: array<Byte>, e: Editor, key: Byte, c: Context)
    requires EditorOk(e) && ContextOk(c) && Shows(buffer, Press(e, key, c).text)
    ensures HasTerminator(buffer[..])
       <==> !(IsPlain(key) && |e.text| == LIMIT && (e.insert || e.cursor == LIMIT))
  {
    hide Press, IsPlain;
    FillsExactly(e, key, c);
    PressOk(e, key, c);
    var text := Press(e, key, c).text;
    if |text| < MAX_INPUT_LINE {
      assert buffer[..][|text|] == 0;
    }
  }

  /** strncpy of at most 79 characters, padded with zeros, then the terminator. */
  method CopyString(buffer: array<Byte>, source: seq<Byte>)
    requires buffer.Length == MAX_INPUT_LINE && IsText(source)
    modifies buffer
    ensures Shows(buffer, Cut(source))
  {
    var k := 0;
    while k < LIMIT
      invariant 0 <= k <= LIMIT
      invariant forall j :: 0 <= j < k ==> buffer[j] == if j < |source| then source[j] else 0
    {
      buffer[k] := if k < |source| then source[k] else 0;
      k := k + 1;
    }
    buffer[LIMIT] := 0;
  }

  /** strlen */
  method StringLength(buffer: array<Byte>, ghost text: seq<Byte>) returns (n: nat)
    requires Shows(buffer, text) && IsText(text) && |text| <= LIMIT
    ensures n == |text|
  {
    n := 0;
    while buffer[n] != 0
      invariant 0 <= n <= |text|
      decreases |text| - n
    {
      n := n + 1;
    }
  }

  /** memmove one place down of the characters from the cursor to the terminator, then a zero. */
  method EraseBefore(buffer: array<Byte>, length: nat, cursor: nat, ghost text: seq<Byte>)
    requires Shows(buffer, text) && length == |text| <= LIMIT && 0 < cursor <= length
    modifies buffer
    ensures Shows(buffer, text[..cursor - 1] + text[cursor..])
  {
    forall k | cursor - 1 <= k < length {
      buffer[k] := buffer[k + 1];
    }
    buffer[length] := 0;
  }

  /** The loop that shifts right from the cursor, dropping what would leave the array, then the character. */
  method InsertAt(buffer: array<Byte>, length: nat, cursor: nat, ch: Byte, ghost text: seq<Byte>)
    requires Shows(buffer, text) && length == |text| <= LIMIT && cursor < length
    modifies buffer
    ensures Shows(buffer, text[..cursor] + [ch] + text[cursor..])
  {
    var j: int := length;
    while j >= cursor
      invariant cursor - 1 <= j <= length
      invariant forall k :: 0 <= k <= j && k < MAX_INPUT_LINE ==> buffer[k] == if k < length then text[k] else 0
      invariant forall k :: j + 1 < k <= length && k < MAX_INPUT_LINE ==> buffer[k] == text[k - 1]
      invariant forall k :: length < k < MAX_INPUT_LINE ==> buffer[k] == 0
    {
      if j + 1 < MAX_INPUT_LINE {
        buffer[j + 1] := buffer[j];
      }
      j := j - 1;
    }
    buffer[cursor] := ch;
  }

  // ---------- the console ----------

  function SlotText(slot: H.Slot): Option<seq<Byte>> {
    if slot.Null? then None else Some(slot.text)
  }

  class Console {
    const cmds: seq<Name>
    const cmdsMatch: array<Name>
    const history: H.ConsoleHistory
    var insertMode: bool

    ghost predicate Valid()
      reads history, history.history
    {
      && AlwaysRoom(cmds, cmdsMatch.Length)
      && (forall k :: 0 <= k < |cmds| ==> IsText(cmds[k]))
      && history.Valid()
      && (forall k :: 0 <= k < SLOTS && history.history[k].Str? ==>
            |history.history[k].text| <= LIMIT && IsText(history.history[k].text))
    }

    /** What the keys can bring in, as the slots and the table are now. */
    ghost function Given(): (c: Context)
      reads history, history.history
      requires Valid()
      ensures ContextOk(c) && c.names == cmds
    {
      var slots := history.history[..];
      Context(seq(SLOTS, k requires 0 <= k < SLOTS => SlotText(slots[k])), cmds)
    }

    constructor (cmds: seq<Name>)
      requires AlwaysRoom(cmds, 10) && forall k :: 0 <= k < |cmds| ==> IsText(cmds[k])
      ensures Valid() && history.Lines() == [] && insertMode && this.cmds == cmds
    {
      this.cmds := cmds;
      cmdsMatch := new Name[10](_ => []);
      var h := new H.ConsoleHistory();
      history := h;
      insertMode := true;
    }

    /** A command that was executed is remembered; it came from the input array, so it is short. */
    method Remember(command: seq<Byte>)
      requires Valid() && |command| <= LIMIT && IsText(command)
      modifies history, history.history
      ensures Valid() && history.Lines() == History.Use(old(history.Lines()), command)
    {
      ghost var before := history.Lines();
      history.AddInHistory(command);
      forall k | 0 <= k < SLOTS && history.history[k].Str?
        ensures |history.history[k].text| <= LIMIT && IsText(history.history[k].text)
      {
        assert history.history[k].text == history.Lines()[k];
        History.UseMembers(before, command, history.Lines()[k]);
      }
    }

    /** A history slot copied into the line, if there is a string in it. */
    method RecallSlot(buffer: array<Byte>, k: nat, length: nat, cursor: nat, ghost e: Editor)
      returns (newLength: nat, newCursor: nat)
      requires Valid() && k < SLOTS
      requires Shows(buffer, e.text) && length == |e.text| && cursor == e.cursor
      modifies buffer
      ensures Valid() && Given() == old(Given())
      ensures var r := Recall(e, k, old(Given()));
              Shows(buffer, r.text) && newLength == |r.text| && newCursor == r.cursor
    {
      newLength, newCursor := length, cursor;
      var slot := history.history[k];
      if slot.Str? {
        CopyString(buffer, slot.text);
        newLength := |slot.text|;
        newCursor := newLength;
      }
    }

    /** The tab key. */
    method CompleteLine(buffer: array<Byte>, length: nat, cursor: nat, ghost e: Editor)
      returns (newLength: nat, newCursor: nat)
      requires Valid() && EditorOk(e)
      requires Shows(buffer, e.text) && length == |e.text| && cursor == e.cursor
      modifies buffer, cmdsMatch
      ensures Valid() && Given() == old(Given())
      ensures var r := Complete(e, cmds);
              Shows(buffer, r.text) && newLength == |r.text| && newCursor == r.cursor
    {
      hide Matches, Extensions;
      newLength, newCursor := length, cursor;
      assert buffer[..length] == e.text;
      CompleteOk(e, Given());
      var count := ListMatchingCommands(cmds, buffer[..length], cmdsMatch);
      if count == 1 {
        CopyString(buffer, cmdsMatch[0]);
        newLength := StringLength(buffer, Cut(cmdsMatch[0]));
        newCursor := newLength;
      } else if 1 < count {
        newLength := StringLength(buffer, e.text);
        newCursor := newLength;
      }
    }

    /** A character typed: inserted before the cursor, written over what is there, or added at the end. */
    method TypeCharacter(buffer: array<Byte>, length: nat, cursor: nat, ch: Byte, ghost e: Editor)
      returns (newLength: nat, newCursor: nat)
      requires EditorOk(e) && e.insert == insertMode
      requires Shows(buffer, e.text) && length == |e.text| && cursor == e.cursor
      modifies buffer
      ensures var r := Type(e, ch);
              Shows(buffer, r.text) && newLength == |r.text| && newCursor == r.cursor
    {
      newLength := length;
      if insertMode && cursor != length {
        InsertAt(buffer, length, cursor, ch, e.text);
        newCursor := cursor + 1;
        newLength := length + 1;
      } else {
        buffer[cursor] := ch;
        newCursor := cursor + 1;
        if newCursor > length {
          newLength := newCursor;
        }
      }
    }

    /** The up and down arrows. */
    method HandleRecall(buffer: array<Byte>, length: nat, cursor: nat, recalled: int, up: bool, ghost e: Editor)
      returns (newLength: nat, newCursor: nat, newRecalled: int)
      requires Valid() && EditorOk(e) && e.recalled == recalled
      requires Shows(buffer, e.text) && length == |e.text| && cursor == e.cursor
      modifies buffer
      ensures Valid() && Given() == old(Given())
      ensures var r := if up then Up(e, old(Given())) else Down(e, old(Given()));
              && Shows(buffer, r.text) && newLength == |r.text| && newCursor == r.cursor
              && newRecalled == r.recalled && r.insert == e.insert
    {
      hide Shows, Given, IsText;
      newRecalled := recalled;
      if up {
        if newRecalled < SLOTS - 1 {
          newRecalled := newRecalled + 1;
        }
      } else {
        if newRecalled > 0 {
          newRecalled := newRecalled - 1;
        }
        if newRecalled < 0 {
          newRecalled := 0;
        }
      }
      newLength, newCursor := RecallSlot(buffer, newRecalled, length, cursor, e);
    }

    /** One key, after the zero, delete and end-of-line keys are told apart. */
    method HandleKey(buffer: array<Byte>, length: nat, cursor: nat, recalled: int, key: Byte, ghost e: Editor)
      returns (newLength: nat, newCursor: nat, newRecalled: int)
      requires Valid() && EditorOk(e) && e.insert == insertMode && e.recalled == recalled
      requires Shows(buffer, e.text) && length == |e.text| && cursor == e.cursor
      modifies buffer, cmdsMatch, `insertMode
      ensures Valid() && Given() == old(Given())
      ensures var r := Press(e, key, old(Given()));
              && Shows(buffer, r.text) && newLength == |r.text| && newCursor == r.cursor
              && newRecalled == r.recalled && insertMode == r.insert
    {
      hide Matches, Cut, Shows, Type, Complete, Given, Up, Down, IsText;
      ghost var c := Given();
      newLength, newCursor, newRecalled := length, cursor, recalled;
      if key == 0 || EndsLine(key) {
      } else if key == KEY_INSERT_MODE {
        insertMode := !insertMode;
      } else if key == KEY_UP {
        newLength, newCursor, newRecalled := HandleRecall(buffer, length, cursor, recalled, true, e);
      } else if key == KEY_DOWN {
        newLength, newCursor, newRecalled := HandleRecall(buffer, length, cursor, recalled, false, e);
      } else if key == KEY_LEFT {
        if cursor > 0 { newCursor := cursor - 1; }
      } else if key == KEY_RIGHT {
        if cursor < length { newCursor := cursor + 1; }
      } else if key == KEY_BACKSPACE || key == KEY_DELETE_MODE {
        if 0 < cursor {
          EraseBefore(buffer, length, cursor, e.text);
          newCursor := cursor - 1;
          newLength := length - 1;
        }
      } else if key == TAB {
        newLength, newCursor := CompleteLine(buffer, length, cursor, e);
      } else {
        newLength, newCursor := TypeCharacter(buffer, length, cursor, key, e);
      }
    }

    /**
     * getUserInputString, from a zeroed array, on the keys typed so far: the array always is the text of the
     * abstract line followed by zeros, and the line returned is the abstract one.
     */
    method GetUserInputString(buffer: array<Byte>, keys: seq<Byte>)
      returns (finished: bool, length: nat, ghost session: Session)
      requires Valid() && Shows(buffer, [])
      modifies buffer, cmdsMatch, `insertMode
      ensures Valid() && Given() == old(Given())
      ensures session == Run(Start(old(insertMode)), keys, old(Given())) && finished == session.Returned?
      ensures finished ==> Shows(buffer, session.line) && length == |session.line| && insertMode == session.insert
      ensures !finished ==> Shows(buffer, session.editor.text) && length == |session.editor.text|
    {
      hide Press, Given, Valid;
      ghost var c := Given();
      ghost var start := Start(insertMode);
      length := 0;
      var cursor, recalled := 0, -1;
      ghost var e := start;
      buffer[0] := 0;
      var n := 0;
      while n < |keys|
        invariant Valid() && Given() == c && ContextOk(c)
        invariant 0 <= n <= |keys| && EditorOk(e) && Run(start, keys[..n], c) == Editing(e)
        invariant Shows(buffer, e.text) && length == |e.text| && cursor == e.cursor
        invariant recalled == e.recalled && insertMode == e.insert
        decreases |keys| - n
      {
        var key := keys[n];
        assert keys[..n + 1][..n] == keys[..n];
        PressOk(e, key, c);
        length, cursor, recalled := HandleKey(buffer, length, cursor, recalled, key, e);
        e := Press(e, key, c);
        n := n + 1;
        if length == MAX_INPUT_LINE {
          length := LIMIT;
          buffer[length] := 0;
          RunStays(start, keys, n, c);
          return true, length, Run(start, keys, c);
        }
        if EndsLine(key) {
          buffer[length] := 0;
          RunStays(start, keys, n, c);
          return true, length, Run(start, keys, c);
        }
      }
      assert keys[..n] == keys;
      return false, length, Editing(e);
    }
  }

  /** Keys after the line is returned are not read. */
  lemma {:induction false} RunStays(e: Editor, keys: seq<Byte>, n: nat, c: Context)
    requires EditorOk(e) && ContextOk(c) && n <= |keys| && Run(e, keys[..n], c).Returned?
    ensures Run(e, keys, c) == Run(e, keys[..n], c)
    decreases |keys|
  {
    hide Press;
    if n == |keys| {
      assert keys[..n] == keys;
    } else {
      var init := keys[..|keys| - 1];
      assert init[..n] == keys[..n];
      RunStays(e, init, n, c);
    }
  }
}
