/** Cutting a typed line into arguments, in place: each delimiter that ends a word becomes a terminator. */
module Arguments {
  import opened Words
  import opened Text

  const MAX_ARGS: nat := 10

  predicate IsDelimiter(c: Byte) {
    c == 32 || c == 10 || c == 9
  }

  /** The space, the new line and the tab. */
  lemma Delimiters(c: Byte)
    ensures IsDelimiter(c) <==> c in {' ' as int, '\n' as int, '\t' as int}
  {
  }

  /** strspn: how many delimiters the text begins with. */
  function Span(s: seq<Byte>): (n: nat)
    ensures n <= |s| && (n < |s| ==> !IsDelimiter(s[n]))
    ensures forall k :: 0 <= k < n ==> IsDelimiter(s[k])
  {
    if s == [] || !IsDelimiter(s[0]) then 0 else 1 + Span(s[1..])
  }

  /** strcspn: how many other characters it begins with. */
  function CSpan(s: seq<Byte>): (n: nat)
    ensures n <= |s| && (n < |s| ==> IsDelimiter(s[n]))
    ensures forall k :: 0 <= k < n ==> !IsDelimiter(s[k])
  {
    if s == [] || IsDelimiter(s[0]) then 0 else 1 + CSpan(s[1..])
  }

  function Drop(s: seq<Byte>, n: nat): (r: seq<Byte>)
    ensures n <= |s| ==> r == s[n..]
  {
    if n <= |s| then s[n..] else []
  }

  /** The words of a text, and what is left of it after the first. */
  function Tokens(s: seq<Byte>): seq<seq<Byte>>
    decreases |s|
  {
    var from := Span(s);
    if from == |s| then []
    else
      var size := CSpan(s[from..]);
      [s[from..from + size]] + Tokens(Drop(s, from + size + 1))
  }

  // ---------- the words are what was written, however it was spaced ----------

  predicate IsWord(w: seq<Byte>) {
    w != [] && forall k :: 0 <= k < |w| ==> !IsDelimiter(w[k])
  }

  predicate IsGap(g: seq<Byte>) {
    forall k :: 0 <= k < |g| ==> IsDelimiter(g[k])
  }

  /** Words with a gap before each and one at the end; only the outer two may be empty. */
  predicate Spacing(words: seq<seq<Byte>>, gaps: seq<seq<Byte>>) {
    && |gaps| == |words| + 1
    && (forall k :: 0 <= k < |words| ==> IsWord(words[k]))
    && (forall k :: 0 <= k < |gaps| ==> IsGap(gaps[k]))
    && (forall k :: 0 < k < |words| ==> gaps[k] != [])
  }

  function Written(words: seq<seq<Byte>>, gaps: seq<seq<Byte>>): seq<Byte>
    requires |gaps| == |words| + 1
  {
    if words == [] then gaps[0] else gaps[0] + words[0] + Written(words[1..], gaps[1..])
  }

  lemma SpanIs(s: seq<Byte>, n: nat)
    requires n <= |s| && (n < |s| ==> !IsDelimiter(s[n])) && forall k :: 0 <= k < n ==> IsDelimiter(s[k])
    ensures Span(s) == n
  {
  }

  lemma CSpanIs(s: seq<Byte>, n: nat)
    requires n <= |s| && (n < |s| ==> IsDelimiter(s[n])) && forall k :: 0 <= k < n ==> !IsDelimiter(s[k])
    ensures CSpan(s) == n
  {
  }

  /** The first word of a text is from..past. */
  predicate WordAt(s: seq<Byte>, from: nat, past: nat) {
    && from < past <= |s| && (past < |s| ==> IsDelimiter(s[past]))
    && IsGap(s[..from]) && IsWord(s[from..past])
  }

  lemma TokensStep(s: seq<Byte>, from: nat, past: nat)
    requires from == Span(s) && from <= past <= |s| && past - from == CSpan(s[from..])
    ensures Tokens(s) == if from == |s| then [] else [s[from..past]] + Tokens(Drop(s, past + 1))
  {
    hide Span, CSpan, Drop;
  }

  lemma NoWord(s: seq<Byte>)
    requires IsGap(s)
    ensures Tokens(s) == []
  {
    SpanIs(s, |s|);
  }

  lemma FirstWord(s: seq<Byte>, from: nat, past: nat)
    requires WordAt(s, from, past)
    ensures Tokens(s) == [s[from..past]] + Tokens(Drop(s, past + 1))
  {
    hide Tokens, Drop;
    assert forall k :: 0 <= k < from ==> s[k] == s[..from][k];
    assert s[from] == s[from..past][0];
    SpanIs(s, from);
    var tail := s[from..];
    assert forall k :: 0 <= k < past - from ==> tail[k] == s[from..past][k];
    assert past < |s| ==> tail[past - from] == s[past];
    CSpanIs(tail, past - from);
    TokensStep(s, from, past);
  }

  /** Every text has a first word, or is one gap. */
  lemma FindWord(s: seq<Byte>) returns (from: nat, past: nat)
    ensures IsGap(s) || WordAt(s, from, past)
  {
    from := Span(s);
    past := from;
    if from < |s| {
      var tail := s[from..];
      past := from + CSpan(tail);
      assert tail[0] == s[from];
      assert forall k :: 0 <= k < past - from ==> s[from..past][k] == tail[k];
      assert past < |s| ==> tail[past - from] == s[past];
    }
  }

  /** A gap less or more at the front changes nothing. */
  lemma GapsAreIgnored(gap: seq<Byte>, rest: seq<Byte>)
    requires IsGap(gap)
    ensures Tokens(gap + rest) == Tokens(rest)
  {
    hide Tokens, IsDelimiter;
    var s := gap + rest;
    var from, past := FindWord(rest);
    if IsGap(rest) {
      NoWord(rest);
      NoWord(s);
    } else {
      FirstWord(rest, from, past);
      assert s[|gap| + from..|gap| + past] == rest[from..past];
      assert s[..|gap| + from] == gap + rest[..from];
      FirstWord(s, |gap| + from, |gap| + past);
      assert Drop(s, |gap| + past + 1) == Drop(rest, past + 1);
    }
  }

  lemma WrittenStarts(words: seq<seq<Byte>>, gaps: seq<seq<Byte>>)
    requires |gaps| == |words| + 1
    ensures gaps[0] <= Written(words, gaps) && (words == [] ==> Written(words, gaps) == gaps[0])
  {
  }

  lemma FirstOfWritten(gap: seq<Byte>, word: seq<Byte>, rest: seq<Byte>)
    requires IsGap(gap) && IsWord(word) && (rest == [] || IsDelimiter(rest[0]))
    ensures Tokens(gap + word + rest) == [word] + Tokens(rest)
  {
    hide Tokens, IsDelimiter;
    var s, past := gap + word + rest, |gap| + |word|;
    assert s[..|gap|] == gap && s[|gap|..past] == word && (rest != [] ==> s[past] == rest[0]);
    FirstWord(s, |gap|, past);
    assert Drop(s, past + 1) == Drop(rest, 1);
    if rest != [] {
      GapsAreIgnored(rest[..1], Drop(rest, 1));
      assert rest[..1] + Drop(rest, 1) == rest;
    }
  }

  lemma SpacingTail(words: seq<seq<Byte>>, gaps: seq<seq<Byte>>)
    requires Spacing(words, gaps) && words != []
    ensures IsGap(gaps[0]) && IsWord(words[0]) && IsGap(gaps[1]) && Spacing(words[1..], gaps[1..])
    ensures words[1..] != [] ==> gaps[1] != []
  {
    hide IsGap, IsWord;
  }

  lemma WrittenNone(gaps: seq<seq<Byte>>)
    requires Spacing([], gaps)
    ensures Tokens(Written([], gaps)) == []
  {
    hide Tokens, IsDelimiter;
    NoWord(gaps[0]);
  }

  lemma WrittenCons(words: seq<seq<Byte>>, gaps: seq<seq<Byte>>)
    requires |gaps| == |words| + 1 && words != []
    ensures Written(words, gaps) == gaps[0] + words[0] + Written(words[1..], gaps[1..])
  {
  }

  lemma RestStarts(words: seq<seq<Byte>>, gaps: seq<seq<Byte>>)
    requires Spacing(words, gaps) && words != []
    ensures var rest := Written(words[1..], gaps[1..]); rest == [] || IsDelimiter(rest[0])
  {
    SpacingSize(words, gaps);
    hide Written, IsDelimiter, Spacing, IsWord;
    SpacingTail(words, gaps);
    WrittenStarts(words[1..], gaps[1..]);
  }

  /** The words come back from every way of spacing them. */
  lemma {:induction false} TokensOfWritten(words: seq<seq<Byte>>, gaps: seq<seq<Byte>>)
    requires Spacing(words, gaps)
    ensures |gaps| == |words| + 1 && Tokens(Written(words, gaps)) == words
    decreases |words|
  {
    SpacingSize(words, gaps);
    hide Tokens, Written, Spacing, IsDelimiter, IsWord, IsGap;
    if words == [] {
      WrittenNone(gaps);
    } else {
      SpacingTail(words, gaps);
      WrittenCons(words, gaps);
      RestStarts(words, gaps);
      TokensOfWritten(words[1..], gaps[1..]);
      FirstOfWritten(gaps[0], words[0], Written(words[1..], gaps[1..]));
    }
  }

  lemma SpacingSize(words: seq<seq<Byte>>, gaps: seq<seq<Byte>>)
    requires Spacing(words, gaps)
    ensures |gaps| == |words| + 1
  {
  }

  lemma AfterWord(s: seq<Byte>, from: nat, past: nat) returns (delimiter: seq<Byte>)
    requires WordAt(s, from, past)
    ensures IsGap(delimiter) && (delimiter == [] ==> Tokens(Drop(s, past + 1)) == [])
    ensures s == s[..from] + s[from..past] + (delimiter + Drop(s, past + 1))
  {
    hide Tokens, IsWord, IsDelimiter;
    NoWord([]);
    delimiter := if past < |s| then [s[past]] else [];
  }

  /** And every line is words written with some spacing. */
  lemma {:induction false} EveryLineIsWritten(s: seq<Byte>) returns (gaps: seq<seq<Byte>>)
    ensures Spacing(Tokens(s), gaps) && Written(Tokens(s), gaps) == s
    decreases |s|
  {
    var from, past := FindWord(s);
    if IsGap(s) {
      NoWord(s);
      gaps := [s];
    } else {
      FirstWord(s, from, past);
      var rest := Drop(s, past + 1);
      var delimiter := AfterWord(s, from, past);
      hide Tokens, Written, Spacing, IsWord, IsGap, Drop;
      var more := EveryLineIsWritten(rest);
      var joined := JoinGap(delimiter, Tokens(rest), more);
      gaps := [s[..from]] + joined;
      AddWord(s[..from], s[from..past], Tokens(rest), joined);
    }
  }

  lemma JoinGap(delimiter: seq<Byte>, words: seq<seq<Byte>>, gaps: seq<seq<Byte>>) returns (joined: seq<seq<Byte>>)
    requires Spacing(words, gaps) && IsGap(delimiter)
    ensures Spacing(words, joined) && Written(words, joined) == delimiter + Written(words, gaps)
    ensures delimiter != [] ==> joined[0] != []
  {
    joined := gaps[0 := delimiter + gaps[0]];
    if words != [] {
      assert joined[1..] == gaps[1..];
    }
  }

  lemma AddWord(gap: seq<Byte>, word: seq<Byte>, words: seq<seq<Byte>>, gaps: seq<seq<Byte>>)
    requires Spacing(words, gaps) && IsGap(gap) && IsWord(word) && (words != [] ==> gaps[0] != [])
    ensures Spacing([word] + words, [gap] + gaps)
    ensures Written([word] + words, [gap] + gaps) == gap + word + Written(words, gaps)
  {
    assert ([word] + words)[1..] == words && ([gap] + gaps)[1..] == gaps;
  }

  // ---------- in place ----------

  /** A string from one position to its terminator. */
  predicate Terminated(bytes: seq<Byte>, from: nat, end: nat) {
    from <= end < |bytes| && bytes[end] == 0 && forall k :: from <= k < end ==> bytes[k] != 0
  }

  /** The string that starts at a position. */
  predicate StringAt(bytes: seq<Byte>, at: nat, text: seq<Byte>) {
    Terminated(bytes, at, at + |text|) && bytes[at..at + |text|] == text
  }

  /** Nothing is written before a position, nor over a terminator. */
  predicate OnlyCut(before: seq<Byte>, after: seq<Byte>, from: nat) {
    && |before| == |after|
    && forall q :: 0 <= q < |before| && (q < from || before[q] == 0) ==> after[q] == before[q]
  }

  /** The library's strspn on the string at a position. */
  method PastDelimiters(buffer: array<Byte>, at: nat, ghost end: nat) returns (next: nat)
    requires Terminated(buffer[..], at, end)
    ensures at <= next <= end && next == at + Span(buffer[at..end])
  {
    next := at;
    while IsDelimiter(buffer[next])
      invariant at <= next <= end
      invariant forall k :: at <= k < next ==> IsDelimiter(buffer[k])
      decreases end - next
    {
      next := next + 1;
    }
    SpanIs(buffer[at..end], next - at);
  }

  /** The library's strcspn. */
  method PastWord(buffer: array<Byte>, at: nat, ghost end: nat) returns (next: nat)
    requires Terminated(buffer[..], at, end)
    ensures at <= next <= end && next == at + CSpan(buffer[at..end])
  {
    next := at;
    while buffer[next] != 0 && !IsDelimiter(buffer[next])
      invariant at <= next <= end
      invariant forall k :: at <= k < next ==> !IsDelimiter(buffer[k])
      decreases end - next
    {
      next := next + 1;
    }
    assert next < end ==> buffer[at..end][next - at] == buffer[next];
    CSpanIs(buffer[at..end], next - at);
  }

  /** The delimiter after a word becomes its terminator. */
  method CloseWord(buffer: array<Byte>, begin: nat, past: nat, ghost end: nat) returns (next: nat)
    requires Terminated(buffer[..], begin, end) && begin <= past <= end
    modifies buffer
    ensures past <= next && Terminated(buffer[..], next, end) && OnlyCut(old(buffer[..]), buffer[..], past)
    ensures StringAt(buffer[..], begin, old(buffer[begin..past]))
    ensures buffer[next..end] == Drop(old(buffer[begin..end]), past - begin + 1)
  {
    next := past;
    if buffer[next] != 0 {
      buffer[next] := 0;
      next := next + 1;
    }
  }

  /** The first word of the text from `context` on, and what is left, in terms of the rest from `begin` on. */
  lemma FirstToken(text: seq<Byte>, skip: nat, size: nat)
    requires skip == Span(text) < |text| && size == CSpan(text[skip..])
    ensures Tokens(text) == [text[skip..][..size]] + Tokens(Drop(text[skip..], size + 1))
  {
    hide Span, CSpan, Tokens;
    TokensStep(text, skip, skip + size);
    assert text[skip..skip + size] == text[skip..][..size];
    assert Drop(text, skip + size + 1) == Drop(text[skip..], size + 1);
  }

  lemma NoToken(text: seq<Byte>)
    requires Span(text) == |text|
    ensures Tokens(text) == []
  {
    hide CSpan;
  }

  /** tokenize: the next word of the string at `context`, closed by a terminator. */
  method Tokenize(buffer: array<Byte>, context: nat, ghost end: nat) returns (token: Option<nat>, next: nat)
    requires Terminated(buffer[..], context, end)
    modifies buffer
    ensures Terminated(buffer[..], next, end) && OnlyCut(old(buffer[..]), buffer[..], context)
    ensures context <= next
    ensures var words := Tokens(old(buffer[context..end]));
            match token
            case None => words == [] && next == end
            case Some(p) =>
              && words != [] && StringAt(buffer[..], p, words[0]) && p + |words[0]| <= next
              && words[1..] == Tokens(buffer[next..end])
  {
    hide Span, CSpan, IsDelimiter, Tokens, StringAt, Drop;
    ghost var text := buffer[context..end];
    var begin := PastDelimiters(buffer, context, end);
    token, next := None, begin;
    if buffer[begin] == 0 {
      NoToken(text);
    } else {
      ghost var tail := buffer[begin..end];
      assert tail == text[begin - context..];
      token := Some(begin);
      next := PastWord(buffer, begin, end);
      FirstToken(text, begin - context, next - begin);
      assert buffer[begin..next] == tail[..next - begin];
      next := CloseWord(buffer, begin, next, end);
    }
  }

  /** The words the loop has found so far. */
  predicate Found(bytes: seq<Byte>, args: seq<Option<nat>>, words: seq<seq<Byte>>, n: nat, limit: nat) {
    && n <= |args| && n <= |words|
    && forall k :: 0 <= k < n ==>
         args[k].Some? && StringAt(bytes, args[k].value, words[k]) && args[k].value + |words[k]| <= limit
  }

  lemma CutKeeps(before: seq<Byte>, after: seq<Byte>, from: nat, at: nat, text: seq<Byte>)
    requires OnlyCut(before, after, from) && StringAt(before, at, text) && at + |text| <= from
    ensures StringAt(after, at, text)
  {
    assert forall k :: at <= k <= at + |text| ==> after[k] == before[k];
  }

  lemma CutKeepsFound(before: seq<Byte>, after: seq<Byte>, from: nat, args: seq<Option<nat>>,
                      words: seq<seq<Byte>>, n: nat)
    requires Found(before, args, words, n, from) && OnlyCut(before, after, from)
    ensures Found(after, args, words, n, from)
  {
    forall k | 0 <= k < n ensures StringAt(after, args[k].value, words[k]) {
      CutKeeps(before, after, from, args[k].value, words[k]);
    }
  }

  /**
   * The argument loop of run, over the line at the start of the buffer: it passes on the words up to the ninth, each
   * as a string of its own, and a null after them when there are fewer.
   */
  method ReadArguments(buffer: array<Byte>, ghost end: nat) returns (argc: nat, args: array<Option<nat>>)
    requires Terminated(buffer[..], 0, end)
    modifies buffer
    ensures fresh(args) && args.Length == 10
    ensures var words := Tokens(old(buffer[0..end]));
            && argc == (if |words| < 10 then |words| else 9)
            && Found(buffer[..], args[..], words, argc, end)
            && (|words| < 10 ==> args[argc].None?)
  {
    hide Tokens, StringAt;
    ghost var words := Tokens(buffer[0..end]);
    args := new Option<nat>[MAX_ARGS](_ => None);
    var i, context := 0, 0;
    var token: Option<nat>;
    token, context := Tokenize(buffer, 0, end);
    args[0] := token;
    while args[i].Some? && i < MAX_ARGS - 1
      invariant 0 <= i < MAX_ARGS && context <= end && Terminated(buffer[..], context, end)
      invariant i <= |words| && (args[i].None? ==> |words| == i)
      invariant Found(buffer[..], args[..], words, if args[i].Some? then i + 1 else i, context)
      invariant args[i].Some? ==> words[i + 1..] == Tokens(buffer[context..end])
      decreases MAX_ARGS - i, args[i].Some?
    {
      ghost var bytes, had, at := buffer[..], args[..], context;
      i := i + 1;
      token, context := Tokenize(buffer, context, end);
      CutKeepsFound(bytes, buffer[..], at, had, words, i);
      args[i] := token;
      if token.Some? {
        assert words[i..][0] == words[i] && words[i..][1..] == words[i + 1..];
      }
    }
    argc := i;
  }
}
