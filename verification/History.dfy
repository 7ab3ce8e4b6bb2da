/** The command history: five slots edited in place are the most recently used commands, latest first. */
module History {
  import opened Words

  type Line = seq<Byte>

  const SLOTS: nat := 5

  // ---------- most recently used, on lists ----------

  function Without(list: seq<Line>, line: Line): seq<Line> {
    if list == [] then []
    else if list[0] == line then Without(list[1..], line)
    else [list[0]] + Without(list[1..], line)
  }

  function Take(list: seq<Line>, n: nat): seq<Line> {
    if |list| <= n then list else list[..n]
  }

  /** What using a command does to the remembered ones. */
  function Use(list: seq<Line>, line: Line): seq<Line> {
    Take([line] + Without(list, line), SLOTS)
  }

  /** All distinct commands of a session, the one used last first. */
  function Recent(commands: seq<Line>): seq<Line> {
    if commands == [] then []
    else
      var last := commands[|commands| - 1];
      [last] + Without(Recent(commands[..|commands| - 1]), last)
  }

  /** The history after a session, one command at a time. */
  function After(commands: seq<Line>): seq<Line> {
    if commands == [] then [] else Use(After(commands[..|commands| - 1]), commands[|commands| - 1])
  }

  lemma {:induction false} WithoutConcat(a: seq<Line>, b: seq<Line>, line: Line)
    ensures Without(a + b, line) == Without(a, line) + Without(b, line)
  {
    if a == [] {
      assert a + b == b;
    } else {
      assert (a + b)[1..] == a[1..] + b;
      WithoutConcat(a[1..], b, line);
    }
  }

  lemma {:induction false} WithoutAbsent(list: seq<Line>, line: Line)
    requires line !in list
    ensures Without(list, line) == list
  {
    if list != [] {
      WithoutAbsent(list[1..], line);
    }
  }

  predicate Distinct(list: seq<Line>) {
    forall i, j :: 0 <= i < j < |list| ==> list[i] != list[j]
  }

  /** Removing a line that is there once. */
  lemma WithoutAt(list: seq<Line>, k: nat)
    requires Distinct(list) && k < |list|
    ensures Without(list, list[k]) == list[..k] + list[k + 1..]
  {
    var line := list[k];
    WithoutConcat(list[..k], list[k..], line);
    assert list == list[..k] + list[k..];
    WithoutAbsent(list[..k], line);
    WithoutAbsent(list[k + 1..], line);
    assert list[k..][1..] == list[k + 1..];
  }

  lemma {:induction false} WithoutMembers(list: seq<Line>, line: Line, x: Line)
    ensures x in Without(list, line) <==> x in list && x != line
    ensures |Without(list, line)| <= |list|
  {
    if list != [] {
      WithoutMembers(list[1..], line, x);
    }
  }

  lemma {:induction false} WithoutDistinct(list: seq<Line>, line: Line)
    requires Distinct(list)
    ensures Distinct(Without(list, line))
  {
    if list != [] {
      WithoutDistinct(list[1..], line);
      WithoutMembers(list[1..], line, list[0]);
      assert list[0] !in list[1..];
    }
  }

  lemma {:induction false} RecentDistinct(commands: seq<Line>)
    ensures Distinct(Recent(commands))
  {
    if commands != [] {
      var init, last := commands[..|commands| - 1], commands[|commands| - 1];
      RecentDistinct(init);
      WithoutDistinct(Recent(init), last);
      WithoutMembers(Recent(init), last, last);
    }
  }

  lemma UseMembers(list: seq<Line>, line: Line, x: Line)
    ensures x in Use(list, line) ==> x == line || x in list
  {
    WithoutMembers(list, line, x);
  }

  /** Forgetting beyond the fifth commutes with using a command. */
  lemma UseOfTake(list: seq<Line>, line: Line)
    requires Distinct(list)
    ensures Use(Take(list, SLOTS), line) == Use(list, line)
  {
    var short := Take(list, SLOTS);
    if |list| > SLOTS {
      var rest := list[SLOTS..];
      assert list == short + rest;
      WithoutConcat(short, rest, line);
      if line in short {
        var k :| 0 <= k < |short| && short[k] == line;
        WithoutAt(short, k);
        WithoutAbsent(rest, line);
      } else {
        WithoutAbsent(short, line);
      }
    }
  }

  /** The history after any session is the five most recently used distinct commands in order of last use. */
  lemma {:induction false} HistoryIsMostRecent(commands: seq<Line>)
    ensures After(commands) == Take(Recent(commands), SLOTS)
    ensures After(commands) <= Recent(commands)
    ensures |After(commands)| == if |Recent(commands)| < 5 then |Recent(commands)| else 5
  {
    if commands != [] {
      var init, last := commands[..|commands| - 1], commands[|commands| - 1];
      HistoryIsMostRecent(init);
      RecentDistinct(init);
      UseOfTake(Recent(init), last);
    }
  }

  /** The last time a command was used: one more than its last position, 0 if never. */
  function LastUse(commands: seq<Line>, line: Line): nat {
    if commands == [] then 0
    else if commands[|commands| - 1] == line then |commands|
    else LastUse(commands[..|commands| - 1], line)
  }

  predicate ByLastUse(list: seq<Line>, commands: seq<Line>) {
    forall i, j :: 0 <= i < j < |list| ==> LastUse(commands, list[i]) > LastUse(commands, list[j])
  }

  lemma {:induction false} LastUseBounds(commands: seq<Line>, line: Line)
    ensures LastUse(commands, line) <= |commands|
    ensures LastUse(commands, line) > 0 <==> line in commands
  {
    if commands != [] {
      var init := commands[..|commands| - 1];
      LastUseBounds(init, line);
      assert commands == init + [commands[|commands| - 1]];
    }
  }

  lemma {:induction false} WithoutOrdered(list: seq<Line>, line: Line, commands: seq<Line>)
    requires ByLastUse(list, commands)
    ensures ByLastUse(Without(list, line), commands)
  {
    if list != [] {
      var rest := list[1..];
      assert ByLastUse(rest, commands) by {
        forall i, j | 0 <= i < j < |rest| ensures LastUse(commands, rest[i]) > LastUse(commands, rest[j]) {
          assert rest[i] == list[i + 1] && rest[j] == list[j + 1];
        }
      }
      WithoutOrdered(rest, line, commands);
      var short := Without(rest, line);
      if list[0] != line {
        forall j | 0 <= j < |short| ensures LastUse(commands, list[0]) > LastUse(commands, short[j]) {
          WithoutMembers(rest, line, short[j]);
          var k :| 0 <= k < |rest| && rest[k] == short[j];
          assert list[k + 1] == rest[k];
        }
      }
    }
  }

  /** What "recent" means: exactly the commands used, ordered by when each was used last. */
  lemma {:induction false} RecentMeaning(commands: seq<Line>)
    ensures forall x :: x in Recent(commands) <==> x in commands
    ensures ByLastUse(Recent(commands), commands)
  {
    if commands != [] {
      var init, last := commands[..|commands| - 1], commands[|commands| - 1];
      assert commands == init + [last];
      RecentMeaning(init);
      var before, list := Recent(init), Recent(commands);
      var rest := Without(before, last);
      forall x ensures x in list <==> x in commands {
        WithoutMembers(before, last, x);
        assert list == [last] + rest;
      }
      WithoutOrdered(before, last, init);
      forall j | 0 <= j < |rest|
        ensures LastUse(commands, rest[j]) == LastUse(init, rest[j]) <= |init|
      {
        WithoutMembers(before, last, rest[j]);
        LastUseBounds(init, rest[j]);
      }
      assert list == [last] + rest;
    }
  }
}
