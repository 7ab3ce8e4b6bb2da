/** Command resolution: a full name, or a prefix of one name only. */
module CommandMatch {
  import opened Words
  import opened Text

  type Name = seq<Byte>

  /** The names a non-empty text is a proper prefix of, in table order. */
  function Extensions(names: seq<Name>, text: Name): seq<Name> {
    if names == [] then []
    else
      var before := Extensions(names[..|names| - 1], text);
      var last := names[|names| - 1];
      if text < last then before + [last] else before
  }

  /** A full name hides the longer ones. */
  function Matches(names: seq<Name>, text: Name): seq<Name> {
    if text == [] then []
    else if text in names then [text]
    else Extensions(names, text)
  }

  function Resolve(names: seq<Name>, text: Name): Option<Name> {
    if |Matches(names, text)| == 1 then Some(Matches(names, text)[0]) else None
  }

  lemma {:induction false} ExtensionsSound(names: seq<Name>, text: Name, name: Name)
    ensures name in Extensions(names, text) <==> name in names && text < name
  {
    if names != [] {
      var init, last := names[..|names| - 1], names[|names| - 1];
      ExtensionsSound(init, text, name);
      assert names == init + [last];
    }
  }

  lemma {:induction false} ExtensionsCount(names: seq<Name>, text: Name)
    ensures |Extensions(names, text)| <= |names|
    ensures |Extensions(names, text)| == 1 <==>
              exists i :: 0 <= i < |names| && OnlyExtension(names, text, i)
    ensures Extensions(names, text) == [] <==> forall i :: 0 <= i < |names| ==> !(text < names[i])
  {
    if names != [] {
      var init, last := names[..|names| - 1], names[|names| - 1];
      ExtensionsCount(init, text);
      assert forall k :: 0 <= k < |init| ==> init[k] == names[k];
      if text < last {
        assert Extensions(init, text) == [] ==> OnlyExtension(names, text, |init|);
      } else {
        assert forall i :: 0 <= i < |init| ==> (OnlyExtension(names, text, i) <==> OnlyExtension(init, text, i));
      }
    }
  }

  /** They come in table order, and as often as the table has them. */
  lemma {:induction false} ExtensionsInOrder(a: seq<Name>, b: seq<Name>, text: Name)
    ensures Extensions(a + b, text) == Extensions(a, text) + Extensions(b, text)
    ensures forall name :: Extensions([name], text) == if text < name then [name] else []
  {
    forall name ensures Extensions([name], text) == if text < name then [name] else [] {
      assert [name][..0] == [];
    }
    if b == [] {
      assert a + b == a;
    } else {
      var init := b[..|b| - 1];
      assert (a + b)[..|a + b| - 1] == a + init;
      ExtensionsInOrder(a, init, text);
    }
  }

  predicate OnlyExtension(names: seq<Name>, text: Name, i: nat)
    requires i < |names|
  {
    text < names[i] && forall j :: 0 <= j < |names| && text < names[j] ==> j == i
  }

  /** What a typed word resolves to: itself when it is a name, else the one name it abbreviates. */
  lemma ResolveMeaning(names: seq<Name>, text: Name, name: Name)
    ensures Resolve(names, text) == Some(name) <==>
            text != [] && ((text in names && name == text)
                           || (text !in names && exists i :: 0 <= i < |names| && OnlyExtension(names, text, i)
                                                             && names[i] == name))
  {
    ExtensionsCount(names, text);
    hide Extensions;
    if text != [] && text !in names && |Extensions(names, text)| == 1 {
      var i :| 0 <= i < |names| && OnlyExtension(names, text, i);
      ExtensionsSound(names, text, names[i]);
      ExtensionsSound(names, text, Extensions(names, text)[0]);
    }
  }

  lemma {:induction false} ExtensionsGrow(names: seq<Name>, text: Name, i: nat)
    requires i <= |names|
    ensures |Extensions(names[..i], text)| <= |Extensions(names, text)|
  {
    if i < |names| {
      ExtensionsGrow(names[..|names| - 1], text, i);
      assert names[..|names| - 1][..i] == names[..i];
    } else {
      assert names[..i] == names;
    }
  }

  /** The slots hold every command that can match the word; the source does not check it. */
  predicate Room(names: seq<Name>, text: Name, slots: nat) {
    0 < slots && |Extensions(names, text)| <= slots
  }

  /** No word abbreviates more commands than there are slots. */
  ghost predicate AlwaysRoom(names: seq<Name>, slots: nat) {
    forall text: Name :: text != [] ==> Room(names, text, slots)
  }

  /** It is enough to have as many slots as commands. */
  lemma RoomForAll(names: seq<Name>, slots: nat)
    requires 0 < slots && |names| <= slots
    ensures AlwaysRoom(names, slots)
  {
    forall text: Name ensures Room(names, text, slots) {
      ExtensionsCount(names, text);
    }
  }

  /** listMatchingCommands: the matches, in the slots kept for them. */
  method ListMatchingCommands(names: seq<Name>, text: Name, cmdsMatch: array<Name>) returns (matchCount: nat)
    requires text != [] ==> Room(names, text, cmdsMatch.Length)
    modifies cmdsMatch
    ensures matchCount == |Matches(names, text)| <= cmdsMatch.Length
    ensures cmdsMatch[..matchCount] == Matches(names, text)
  {
    matchCount := 0;
    if text == [] {
      return;
    }
    var i := 0;
    while i < |names|
      invariant 0 <= i <= |names| && matchCount <= cmdsMatch.Length
      invariant text !in names[..i]
      invariant cmdsMatch[..matchCount] == Extensions(names[..i], text)
    {
      assert names[..i + 1][..i] == names[..i];
      if text <= names[i] {
        if |names[i]| == |text| {
          cmdsMatch[0] := names[i];
          assert text == names[i] && cmdsMatch[..1] == [text];
          return 1;
        }
        ExtensionsGrow(names, text, i + 1);
        cmdsMatch[matchCount] := names[i];
        matchCount := matchCount + 1;
      }
      i := i + 1;
    }
    assert names[..i] == names;
  }

  method MatchCommand(names: seq<Name>, text: Name, cmdsMatch: array<Name>) returns (command: Option<Name>)
    requires text != [] ==> Room(names, text, cmdsMatch.Length)
    modifies cmdsMatch
    ensures command == Resolve(names, text)
  {
    var count := ListMatchingCommands(names, text, cmdsMatch);
    if count == 1 {
      command := Some(cmdsMatch[0]);
    } else {
      command := None;
    }
  }
}
