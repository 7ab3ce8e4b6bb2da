/**
 * The console's line editor: an 80-byte array edited in place is a line of text with a cursor.
 */
module LineEditor {
  import opened Words
  import opened Text
  import opened CommandMatch

  const MAX_INPUT_LINE: nat := 80
  const LIMIT: nat := 79
  const SLOTS: nat := 5

  const KEY_UP: Byte := 128
  const KEY_DOWN: Byte := 129
  const KEY_LEFT: Byte := 130
  const KEY_RIGHT: Byte := 131
  const KEY_BACKSPACE: Byte := 8
  const KEY_DELETE_MODE: Byte := 127
  const KEY_INSERT_MODE: Byte := 126
  const TAB: Byte := 9
  const NEW_LINE: Byte := 10
  const RETURN: Byte := 13

  // ---------- the line with a cursor ----------

  /** The text, the cursor, whether typing inserts, and the history slot last recalled (-1 at first). */
  datatype Editor = Editor(text: seq<Byte>, cursor: nat, insert: bool, recalled: int)

  /** What the keys can bring in: the history slots and the command names. */
  datatype Context = Context(history: seq<Option<seq<Byte>>>, names: seq<Name>)

  predicate IsText(s: seq<Byte>) {
    forall k :: 0 <= k < |s| ==> s[k] != 0
  }

  predicate ContextOk(c: Context) {
    && |c.history| == SLOTS
    && (forall k :: 0 <= k < SLOTS ==> c.history[k].Some? ==>
          |c.history[k].value| <= LIMIT && IsText(c.history[k].value))
    && (forall k :: 0 <= k < |c.names| ==> IsText(c.names[k]))
  }

  predicate EditorOk(e: Editor) {
    e.cursor <= |e.text| <= LIMIT && IsText(e.text) && -1 <= e.recalled < SLOTS
  }

  function Cut(s: seq<Byte>): seq<Byte> {
    if |s| <= LIMIT then s else s[..LIMIT]
  }

  function Recall(e: Editor, k: nat, c: Context): Editor
    requires ContextOk(c) && k < SLOTS
  {
    if c.history[k].Some? then Editor(c.history[k].value, |c.history[k].value|, e.insert, k)
    else e.(recalled := k)
  }

  function Up(e: Editor, c: Context): Editor
    requires EditorOk(e) && ContextOk(c)
  {
    Recall(e, if e.recalled < SLOTS - 1 then e.recalled + 1 else e.recalled, c)
  }

  function Down(e: Editor, c: Context): Editor
    requires EditorOk(e) && ContextOk(c)
  {
    Recall(e, if e.recalled > 0 then e.recalled - 1 else 0, c)
  }

  function Erase(e: Editor): Editor
    requires EditorOk(e)
  {
    if e.cursor == 0 then e
    else e.(text := e.text[..e.cursor - 1] + e.text[e.cursor..], cursor := e.cursor - 1)
  }

  function Complete(e: Editor, names: seq<Name>): (r: Editor)
    ensures r.insert == e.insert && r.recalled == e.recalled
  {
    var found := Matches(names, e.text);
    if |found| == 1 then e.(text := Cut(found[0]), cursor := |Cut(found[0])|)
    else if |found| > 1 then e.(cursor := |e.text|)
    else e
  }

  function Type(e: Editor, ch: Byte): (r: Editor)
    requires EditorOk(e)
    ensures r.insert == e.insert && r.recalled == e.recalled
  {
    var after := if e.insert || e.cursor == |e.text| then e.text[e.cursor..] else e.text[e.cursor + 1..];
    e.(text := e.text[..e.cursor] + [ch] + after, cursor := e.cursor + 1)
  }

  predicate EndsLine(key: Byte) {
    key == NEW_LINE || key == RETURN
  }

  /** What one key does to the line; a full line has 80 characters for a moment. */
  function Press(e: Editor, key: Byte, c: Context): Editor
    requires EditorOk(e) && ContextOk(c)
  {
    if key == 0 || EndsLine(key) then e
    else if key == KEY_INSERT_MODE then e.(insert := !e.insert)
    else if key == KEY_UP then Up(e, c)
    else if key == KEY_DOWN then Down(e, c)
    else if key == KEY_LEFT then if e.cursor > 0 then e.(cursor := e.cursor - 1) else e
    else if key == KEY_RIGHT then if e.cursor < |e.text| then e.(cursor := e.cursor + 1) else e
    else if key == KEY_BACKSPACE || key == KEY_DELETE_MODE then Erase(e)
    else if key == TAB then Complete(e, c.names)
    else Type(e, key)
  }

  predicate Closes(e: Editor, key: Byte) {
    |e.text| == MAX_INPUT_LINE || EndsLine(key)
  }

  /** A session of keys: still editing, or the line returned and the number of keys it took. */
  datatype Session = Editing(editor: Editor) | Returned(line: seq<Byte>, insert: bool, used: nat)

  function Run(e: Editor, keys: seq<Byte>, c: Context): (s: Session)
    requires EditorOk(e) && ContextOk(c)
    ensures s.Editing? ==> EditorOk(s.editor)
    ensures s.Returned? ==> |s.line| <= LIMIT && IsText(s.line) && s.used <= |keys|
    decreases |keys|
  {
    if keys == [] then Editing(e)
    else
      match Run(e, keys[..|keys| - 1], c)
      case Returned(line, insert, used) => Returned(line, insert, used)
      case Editing(before) =>
        PressOk(before, keys[|keys| - 1], c);
        var after := Press(before, keys[|keys| - 1], c);
        if Closes(after, keys[|keys| - 1]) then Returned(Cut(after.text), after.insert, |keys|)
        else Editing(after)
  }

  /** One key keeps the line well formed: at most 79 characters, or 80 and the line is closed. */
  lemma PressOk(e: Editor, key: Byte, c: Context)
    requires EditorOk(e) && ContextOk(c)
    ensures var r := Press(e, key, c);
            && IsText(r.text) && r.cursor <= |r.text| <= MAX_INPUT_LINE && -1 <= r.recalled < SLOTS
            && (|r.text| <= LIMIT || Closes(r, key))
  {
    hide Complete, Up, Down, Erase, Type, IsText, ContextOk;
    CompleteOk(e, c);
    RecallOk(e, c);
    EraseOk(e);
    if key != 0 {
      TypeOk(e, key);
    }
  }

  lemma RecallOk(e: Editor, c: Context)
    requires EditorOk(e) && ContextOk(c)
    ensures EditorOk(Up(e, c)) && EditorOk(Down(e, c))
  {
    hide IsText;
  }

  lemma EraseOk(e: Editor)
    requires EditorOk(e)
    ensures EditorOk(Erase(e)) && Erase(e).recalled == e.recalled
  {
  }

  lemma TypeOk(e: Editor, ch: Byte)
    requires EditorOk(e) && ch != 0
    ensures var r := Type(e, ch);
            IsText(r.text) && r.cursor <= |r.text| <= MAX_INPUT_LINE && |r.text| <= |e.text| + 1
  {
  }

  lemma CompleteOk(e: Editor, c: Context)
    requires EditorOk(e) && ContextOk(c)
    ensures EditorOk(Complete(e, c.names))
    ensures var found := Matches(c.names, e.text); |found| == 1 ==> IsText(found[0])
  {
    var found := Matches(c.names, e.text);
    if |found| == 1 {
      ExtensionsSound(c.names, e.text, found[0]);
      assert IsText(found[0]);
    }
  }

  function Start(insert: bool): Editor {
    Editor([], 0, insert, -1)
  }

  // ---------- what the keys mean together ----------

  predicate IsPlain(key: Byte) {
    && key != 0 && !EndsLine(key) && key != KEY_INSERT_MODE && key != KEY_UP && key != KEY_DOWN
    && key != KEY_LEFT && key != KEY_RIGHT && key != KEY_BACKSPACE && key != KEY_DELETE_MODE && key != TAB
  }

  lemma PlainPress(e: Editor, key: Byte, c: Context)
    requires EditorOk(e) && ContextOk(c) && IsPlain(key)
    ensures Press(e, key, c) == Type(e, key) && !EndsLine(key)
  {
    hide Type, Complete, Recall, Erase;
  }

  /** One more plain character in a session. */
  lemma RunOneMore(e: Editor, keys: seq<Byte>, c: Context, before: Editor)
    requires EditorOk(e) && ContextOk(c) && keys != [] && IsPlain(keys[|keys| - 1])
    requires Run(e, keys[..|keys| - 1], c) == Editing(before)
    ensures EditorOk(before)
    ensures var after := Type(before, keys[|keys| - 1]);
            Run(e, keys, c) == if |after.text| == MAX_INPUT_LINE then Returned(Cut(after.text), after.insert, |keys|)
                               else Editing(after)
  {
    PlainPress(before, keys[|keys| - 1], c);
    hide Press, Type, Cut, IsPlain;
  }

  /** The only way to fill all 80 places: a character typed into a line of 79, not over one of them. */
  lemma FillsExactly(e: Editor, key: Byte, c: Context)
    requires EditorOk(e) && ContextOk(c)
    ensures |Press(e, key, c).text| == MAX_INPUT_LINE
       <==> IsPlain(key) && |e.text| == LIMIT && (e.insert || e.cursor == LIMIT)
  {
    hide Complete, Up, Down, Erase, Type, IsText, ContextOk;
    CompleteOk(e, c);
    RecallOk(e, c);
    EraseOk(e);
    TypeGrows(e, key);
  }

  lemma TypeGrows(e: Editor, ch: Byte)
    requires EditorOk(e)
    ensures |Type(e, ch).text| == |e.text| + if e.insert || e.cursor == |e.text| then 1 else 0
  {
    hide IsText;
  }

  /** Backspace takes back an inserted character. */
  lemma BackspaceUndoes(e: Editor, key: Byte, c: Context)
    requires EditorOk(e) && ContextOk(c) && IsPlain(key) && |e.text| < LIMIT
    requires e.insert || e.cursor == |e.text|
    ensures EditorOk(Press(e, key, c))
    ensures Press(Press(e, key, c), KEY_BACKSPACE, c) == e
  {
    PressOk(e, key, c);
    var typed := Press(e, key, c);
    assert typed.text[..e.cursor] == e.text[..e.cursor] && typed.text[e.cursor + 1..] == e.text[e.cursor..];
    assert e.text == e.text[..e.cursor] + e.text[e.cursor..];
  }

  /** Erasing and typing the same character again, too. */
  lemma RetypeUndoesBackspace(e: Editor, c: Context)
    requires EditorOk(e) && ContextOk(c) && e.cursor > 0 && IsPlain(e.text[e.cursor - 1])
    requires e.insert || e.cursor == |e.text|
    ensures EditorOk(Press(e, KEY_BACKSPACE, c))
    ensures Press(Press(e, KEY_BACKSPACE, c), e.text[e.cursor - 1], c) == e
  {
    var ch, n := e.text[e.cursor - 1], e.cursor;
    var erased := Press(e, KEY_BACKSPACE, c);
    assert erased.text[..n - 1] == e.text[..n - 1] && erased.text[n - 1..] == e.text[n..];
    assert e.text == e.text[..n - 1] + [ch] + e.text[n..];
  }

  /** What is left after the cursor once n characters are typed there. */
  function Rest(e: Editor, n: nat): seq<Byte>
    requires e.cursor <= |e.text|
  {
    if e.insert then e.text[e.cursor..]
    else if e.cursor + n <= |e.text| then e.text[e.cursor + n..] else []
  }

  lemma TypeAfter(e: Editor, typed: seq<Byte>, key: Byte)
    requires EditorOk(e) && e.cursor + |typed| + |Rest(e, |typed|)| <= LIMIT && IsText(typed)
    ensures var before := e.(text := e.text[..e.cursor] + typed + Rest(e, |typed|), cursor := e.cursor + |typed|);
            var n := |typed| + 1;
            && EditorOk(before)
            && Type(before, key)
            == e.(text := e.text[..e.cursor] + (typed + [key]) + Rest(e, n), cursor := e.cursor + n)
  {
    var head, rest := e.text[..e.cursor] + typed, Rest(e, |typed|);
    var text := head + rest;
    assert text[..|head|] == head && text[|head|..] == rest;
    assert rest != [] ==> text[|head| + 1..] == rest[1..];
    assert head + [key] == e.text[..e.cursor] + (typed + [key]);
    assert |head| == e.cursor + |typed|;
  }

  lemma NothingTyped(e: Editor, c: Context)
    requires EditorOk(e) && ContextOk(c)
    ensures Run(e, [], c) == Editing(e) && e.text[..e.cursor] + [] + Rest(e, 0) == e.text
  {
  }

  lemma RestShrinks(e: Editor, n: nat)
    requires e.cursor <= |e.text|
    ensures |Rest(e, n)| <= |Rest(e, n + 1)| + 1
  {
  }

  /** A word typed anywhere in a line: pushed in before what follows, or written over it and on past the end. */
  lemma {:induction false} TypedInside(e: Editor, keys: seq<Byte>, c: Context)
    requires EditorOk(e) && ContextOk(c) && forall k :: 0 <= k < |keys| ==> IsPlain(keys[k])
    requires e.cursor + |keys| + |Rest(e, |keys|)| <= LIMIT
    ensures Run(e, keys, c) ==
            Editing(e.(text := e.text[..e.cursor] + keys + Rest(e, |keys|), cursor := e.cursor + |keys|))
    decreases |keys|
  {
    hide Run, Type, Rest, Cut, ContextOk;
    if keys == [] {
      NothingTyped(e, c);
    } else {
      var n := |keys| - 1;
      var init, last := keys[..n], keys[n];
      RestShrinks(e, n);
      TypedInside(e, init, c);
      TypeAfter(e, init, last);
      assert init + [last] == keys;
      RunOneMore(e, keys, c, e.(text := e.text[..e.cursor] + init + Rest(e, n), cursor := e.cursor + n));
    }
  }

  /** Typing plain characters gives exactly them; the eightieth closes the line and is lost. */
  lemma {:induction false} TypedLine(keys: seq<Byte>, insert: bool, c: Context)
    requires ContextOk(c) && forall k :: 0 <= k < |keys| ==> IsPlain(keys[k])
    ensures Run(Start(insert), keys, c) ==
            if |keys| <= LIMIT then Editing(Editor(keys, |keys|, insert, -1))
            else Returned(keys[..LIMIT], insert, MAX_INPUT_LINE)
    decreases |keys|
  {
    var e := Start(insert);
    if |keys| <= LIMIT {
      hide Run;
      TypedInside(e, keys, c);
      assert [] + keys + [] == keys;
    } else {
      var init := keys[..|keys| - 1];
      TypedLine(init, insert, c);
      assert keys[..LIMIT] == init[..LIMIT];
      if |keys| == MAX_INPUT_LINE {
        hide Run;
        RunOneMore(e, keys, c, Editor(init, |init|, insert, -1));
      }
    }
  }

  /** The arrows move between the ends and come back; the line stays. */
  lemma ArrowsComeBack(e: Editor, c: Context)
    requires EditorOk(e) && ContextOk(c)
    ensures e.cursor > 0 ==> Press(Press(e, KEY_LEFT, c), KEY_RIGHT, c) == e
    ensures e.cursor < |e.text| ==> Press(Press(e, KEY_RIGHT, c), KEY_LEFT, c) == e
    ensures e.cursor == 0 ==> Press(e, KEY_LEFT, c) == e
    ensures e.cursor == |e.text| ==> Press(e, KEY_RIGHT, c) == e
  {
  }

  // ---------- the keys that are not characters ----------

  /** Enter ends the session with the line as it is, wherever the cursor stands. */
  lemma {:induction false} EnterReturnsTheLine(e: Editor, keys: seq<Byte>, key: Byte, c: Context, x: Editor)
    requires EditorOk(e) && ContextOk(c) && (key == 10 || key == 13)
    requires Run(e, keys, c) == Editing(x)
    ensures Run(e, keys + [key], c) == Returned(x.text, x.insert, |keys| + 1)
  {
    hide Complete, Up, Down, Erase, Type;
    var all := keys + [key];
    assert all[..|all| - 1] == keys;
  }

  /** A word of plain characters and then Enter gives the word. */
  lemma {:induction false} WordThenEnter(word: seq<Byte>, key: Byte, insert: bool, c: Context)
    requires ContextOk(c) && |word| <= 79 && (forall k :: 0 <= k < |word| ==> IsPlain(word[k]))
    requires key == 10 || key == 13
    ensures Run(Start(insert), word + [key], c) == Returned(word, insert, |word| + 1)
  {
    hide Run, IsPlain;
    TypedLine(word, insert, c);
    EnterReturnsTheLine(Start(insert), word, key, c, Editor(word, |word|, insert, -1));
  }

  /** A character that fills the line closes it: the first 79 characters come back. */
  lemma {:induction false} FullLineIsCut(e: Editor, keys: seq<Byte>, key: Byte, c: Context, x: Editor)
    requires EditorOk(e) && ContextOk(c) && IsPlain(key) && Run(e, keys, c) == Editing(x) && |x.text| == 79
    requires x.insert || x.cursor == 79
    ensures Run(e, keys + [key], c)
         == Returned((x.text[..x.cursor] + [key] + x.text[x.cursor..])[..79], x.insert, |keys| + 1)
  {
    hide IsPlain, Run;
    assert (keys + [key])[..|keys|] == keys;
    RunOneMore(e, keys + [key], c, x);
  }

  /** The zero that stands for no key is passed over. */
  lemma {:induction false} NoKeyIsIgnored(e: Editor, keys: seq<Byte>, c: Context, x: Editor)
    requires EditorOk(e) && ContextOk(c) && Run(e, keys, c) == Editing(x)
    ensures Run(e, keys + [0], c) == Editing(x)
  {
    hide Complete, Up, Down, Erase, Type;
    var all := keys + [0];
    assert all[..|all| - 1] == keys;
  }

  /** The insert key (126) changes the mode and nothing else; twice, nothing at all. */
  lemma InsertToggles(e: Editor, c: Context)
    requires EditorOk(e) && ContextOk(c)
    ensures var r := Press(e, 126, c);
            && r.insert != e.insert && r.text == e.text && r.cursor == e.cursor && r.recalled == e.recalled
            && EditorOk(r) && Press(r, 126, c) == e
  {
    hide Complete, Up, Down, Erase, Type;
  }

  /** Backspace (8) and delete (127) take out the character before the cursor, in either mode; at the start of the
      line they do nothing. */
  lemma BackspaceTakesOut(e: Editor, key: Byte, c: Context)
    requires EditorOk(e) && ContextOk(c) && (key == 8 || key == 127)
    ensures var r := Press(e, key, c);
            && r.insert == e.insert && r.recalled == e.recalled
            && (e.cursor == 0 ==> r == e)
            && (e.cursor > 0 ==>
                  && r.cursor == e.cursor - 1 && |r.text| == |e.text| - 1
                  && forall k :: 0 <= k < |r.text| ==> r.text[k] == e.text[if k < r.cursor then k else k + 1])
  {
    hide Complete, Up, Down, Type;
  }

  /**
   * The tab key (9). A command typed in full, and a word that several commands extend, stay, and the cursor goes to
   * the end; a word that one command extends becomes that command, cut to 79 characters, with the cursor at its end;
   * an empty line, and a word no command begins with, are left alone.
   */
  lemma TabDoes(e: Editor, c: Context)
    requires EditorOk(e) && ContextOk(c)
    ensures var r := Press(e, 9, c);
            && r.insert == e.insert && r.recalled == e.recalled
            && (e.text == [] || (forall i :: 0 <= i < |c.names| ==> !(e.text <= c.names[i])) ==> r == e)
            && (e.text in c.names && e.text != [] ==> r.text == e.text && r.cursor == |e.text|)
            && (e.text !in c.names && e.text != [] ==>
                  forall i :: 0 <= i < |c.names| && OnlyExtension(c.names, e.text, i) ==>
                    r.text == Cut(c.names[i]) && r.cursor == |r.text|)
            && (e.text !in c.names && e.text != [] ==>
                  forall i, j :: 0 <= i < j < |c.names| && e.text < c.names[i] && e.text < c.names[j] ==>
                    r.text == e.text && r.cursor == |e.text|)
  {
    TabIsComplete(e, c);
    hide Press, Cut;
    ExtensionsCount(c.names, e.text);
    if e.text != [] && e.text !in c.names {
      TabOnWord(e, c);
    }
  }

  lemma TabIsComplete(e: Editor, c: Context)
    requires EditorOk(e) && ContextOk(c)
    ensures Press(e, 9, c) == Complete(e, c.names)
  {
    hide Complete, Up, Down, Erase, Type;
  }

  lemma TabOnWord(e: Editor, c: Context)
    requires EditorOk(e) && ContextOk(c) && e.text != [] && e.text !in c.names
    ensures var r, names := Complete(e, c.names), c.names;
            && ((forall i :: 0 <= i < |names| ==> !(e.text < names[i])) ==> r == e)
            && (forall i :: 0 <= i < |names| && OnlyExtension(names, e.text, i) ==>
                  r.text == Cut(names[i]) && r.cursor == |r.text|)
            && (forall i, j :: 0 <= i < j < |names| && e.text < names[i] && e.text < names[j] ==>
                  r.text == e.text && r.cursor == |e.text|)
  {
    hide Cut, Extensions;
    var names, found := c.names, Extensions(c.names, e.text);
    ExtensionsCount(names, e.text);
    forall i | 0 <= i < |names| && OnlyExtension(names, e.text, i) ensures found == [names[i]] {
      ExtensionsSound(names, e.text, found[0]);
      assert found == [found[0]];
    }
  }

  // ---------- the history keys ----------

  /** So many presses of the up arrow (128), then so many of the down arrow (129). */
  function Arrows(e: Editor, ups: nat, downs: nat, c: Context): (r: Editor)
    requires EditorOk(e) && ContextOk(c)
    ensures EditorOk(r)
    decreases ups + downs
  {
    if downs > 0 then
      var before := Arrows(e, ups, downs - 1, c);
      ArrowOk(before, c);
      Press(before, 129, c)
    else if ups > 0 then
      var before := Arrows(e, ups - 1, 0, c);
      ArrowOk(before, c);
      Press(before, 128, c)
    else e
  }

  lemma ArrowOk(e: Editor, c: Context)
    requires EditorOk(e) && ContextOk(c)
    ensures EditorOk(Press(e, 128, c)) && EditorOk(Press(e, 129, c))
    ensures Press(e, 128, c) == Up(e, c) && Press(e, 129, c) == Down(e, c)
  {
    RecallOk(e, c);
    hide Complete, Up, Down, Erase, Type, IsText;
  }

  /** The first m slots hold commands. */
  predicate Occupied(c: Context, m: nat) {
    m <= SLOTS == |c.history| && forall k :: 0 <= k < SLOTS ==> (c.history[k].Some? <==> k < m)
  }

  /** The slot, if any, whose command is in the line. */
  predicate ShowsSlot(e: Editor, c: Context, m: nat, slot: int) {
    if m == 0 then e.text == [] && e.cursor == 0
    else 0 <= slot < |c.history| && c.history[slot].Some?
         && e.text == c.history[slot].value && e.cursor == |e.text|
  }

  /** The place in the history after n presses up and d down on a fresh line: it stops at the fifth and at the first. */
  function PlaceAfter(n: nat, d: nat): nat
    requires n > 0
  {
    var top := if n <= 5 then n - 1 else 4;
    if d <= top then top - d else 0
  }

  /**
   * With m commands remembered, n presses of the up arrow on a fresh line and d of the down arrow lead to a place
   * that only counts the presses, as far as the fifth slot and back to the first, occupied or not. The line shows
   * the command in that place, or the oldest one if the place is empty. So after surplus presses up, as many presses
   * down leave the oldest command in the line.
   */
  lemma {:induction false} ArrowsShowHistory(insert: bool, n: nat, d: nat, m: nat, c: Context)
    requires ContextOk(c) && Occupied(c, m) && n > 0
    ensures var e, place := Arrows(Start(insert), n, d, c), PlaceAfter(n, d);
            && e.recalled == place && e.insert == insert
            && ShowsSlot(e, c, m, if place < m then place else m - 1)
    decreases n + d
  {
    ArrowsStep(Start(insert), n, d, c);
    hide Arrows, Press, ShowsSlot, Up, Down;
    if d > 0 {
      ArrowsShowHistory(insert, n, d - 1, m, c);
      DownShows(Arrows(Start(insert), n, d - 1, c), PlaceAfter(n, d - 1), m, c);
    } else if n > 1 {
      ArrowsShowHistory(insert, n - 1, 0, m, c);
      UpShows(Arrows(Start(insert), n - 1, 0, c), PlaceAfter(n - 1, 0), m, c);
    } else {
      FirstUpShows(insert, m, c);
    }
  }

  lemma ArrowsStep(e: Editor, n: nat, d: nat, c: Context)
    requires EditorOk(e) && ContextOk(c)
    ensures d > 0 ==> Arrows(e, n, d, c) == Down(Arrows(e, n, d - 1, c), c)
    ensures d == 0 && n > 0 ==> Arrows(e, n, d, c) == Up(Arrows(e, n - 1, 0, c), c)
    ensures Arrows(e, 0, 0, c) == e
  {
    hide Press, Up, Down;
    if d > 0 {
      ArrowOk(Arrows(e, n, d - 1, c), c);
    } else if n > 0 {
      ArrowOk(Arrows(e, n - 1, 0, c), c);
    }
  }

  lemma UpShows(e: Editor, place: nat, m: nat, c: Context)
    requires EditorOk(e) && ContextOk(c) && Occupied(c, m) && e.recalled == place
    requires ShowsSlot(e, c, m, if place < m then place else m - 1)
    ensures var r, next := Up(e, c), if place < 4 then place + 1 else place;
            r.recalled == next && r.insert == e.insert && ShowsSlot(r, c, m, if next < m then next else m - 1)
  {
    hide IsText;
  }

  lemma DownShows(e: Editor, place: nat, m: nat, c: Context)
    requires EditorOk(e) && ContextOk(c) && Occupied(c, m) && e.recalled == place
    requires ShowsSlot(e, c, m, if place < m then place else m - 1)
    ensures var r, next := Down(e, c), if place > 0 then place - 1 else 0;
            r.recalled == next && r.insert == e.insert && ShowsSlot(r, c, m, if next < m then next else m - 1)
  {
    hide IsText;
  }

  lemma FirstUpShows(insert: bool, m: nat, c: Context)
    requires ContextOk(c) && Occupied(c, m)
    ensures var r := Up(Start(insert), c);
            r.recalled == 0 && r.insert == insert && ShowsSlot(r, c, m, if 0 < m then 0 else -1)
  {
    hide IsText;
  }

  /** Two commands remembered and three presses up: the down arrow leaves the older one in the line. */
  lemma DownMayStay(a: seq<Byte>, b: seq<Byte>, c: Context)
    requires ContextOk(c) && c.history == [Some(a), Some(b), None, None, None]
    ensures Arrows(Start(true), 3, 0, c).text == b && Arrows(Start(true), 3, 1, c).text == b
  {
    hide Arrows;
    assert Occupied(c, 2);
    ArrowsShowHistory(true, 3, 0, 2, c);
    ArrowsShowHistory(true, 3, 1, 2, c);
  }

  /** The down arrow alone, on a fresh line, shows the latest command. */
  lemma DownShowsTheLatest(insert: bool, m: nat, c: Context)
    requires ContextOk(c) && Occupied(c, m)
    ensures var e := Press(Start(insert), 129, c); e.recalled == 0 && ShowsSlot(e, c, m, 0)
  {
    hide Press;
    ArrowOk(Start(insert), c);
  }

  lemma {:induction false} OneExtension(names: seq<Name>, text: Name, longer: Name)
    requires text <= longer && |Extensions(names, text)| <= 1
    requires longer !in names || longer == text
    ensures forall name :: name in Extensions(names, text) && longer < name ==> Extensions(names, longer) == [name]
    ensures |Extensions(names, longer)| <= |Extensions(names, text)|
  {
    if names != [] {
      var init := names[..|names| - 1];
      OneExtension(init, text, longer);
      assert names == init + [names[|names| - 1]];
      if Extensions(init, text) != [] {
        assert Extensions(init, text) == [Extensions(init, text)[0]];
      }
    }
  }

  /** A completion is a command that extends what was typed, as far as it fits; completing again changes nothing. */
  lemma {:induction false} CompletionIsStable(e: Editor, c: Context)
    requires EditorOk(e) && ContextOk(c) && |Matches(c.names, e.text)| == 1
    ensures var done, name := Complete(e, c.names), Matches(c.names, e.text)[0];
            name in c.names && e.text <= name && done.text == Cut(name) && Complete(done, c.names) == done
  {
    var name := Matches(c.names, e.text)[0];
    ExtensionsSound(c.names, e.text, name);
    var text := Cut(name);
    if e.text !in c.names {
      assert Extensions(c.names, e.text) == [name];
      ExtensionsSound(c.names, e.text, text);
      if text !in c.names {
        OneExtension(c.names, e.text, text);
      }
    }
  }
}
