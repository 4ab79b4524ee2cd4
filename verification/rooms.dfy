/**
 * Rooms (rooms.go): a room has a description, a name, its exits, the
 * commands those exits generate, and the things (mobs) inside it.
 */

class Room {
  var description: string
  var name: string
  var exits: seq<Exit>
  var commands: seq<Command>
  var contents: seq<Mob>

  constructor Unlinked(description: string, name: string)
    ensures this.description == description && this.name == name
    ensures exits == [] && commands == [] && contents == []
  {
    this.description := description;
    this.name := name;
    exits := [];
    commands := [];
    contents := [];
  }

  /** `newGenericRoom`: an unlinked room with the placeholder description and name. */
  constructor Generic()
    ensures description == "This is a boring generic room." && name == "Generic Room"
    ensures exits == [] && commands == [] && contents == []
  {
    description := "This is a boring generic room.";
    name := "Generic Room";
    exits := [];
    commands := [];
    contents := [];
  }

  /** `newLinkedRoom`: a room holding exactly the given exits and one command per exit. */
  constructor Linked(description: string, name: string, exits: seq<Exit>)
    requires forall e :: e in exits ==> e.destination != null
    ensures this.description == description && this.name == name
    ensures this.exits == exits && contents == []
    ensures |commands| == |exits|
    ensures forall i :: 0 <= i < |exits| ==>
              commands[i].names == exits[i].names && commands[i].action == ExitAction(exits[i].GetDestination())
  {
    this.description := description;
    this.name := name;
    this.exits := [] + exits;
    commands := [];
    contents := [];
    new;
    UpdateCommands();
  }

  /** The header: the name between bars, then the description between two rules of '-'. */
  function GetDescription(): (text: string)
    reads this
    ensures exists padding: string ::
              && |padding| == |description|
              && (forall i :: 0 <= i < |padding| ==> padding[i] == '-')
              && text == "\n|" + name + "|\n" + padding + "\n" + description + "\n" + padding + "\n\n"
  {
    var padding := Repeat('-', |description|);
    "\n|" + name + "|\n" + padding + "\n" + description + "\n" + padding + "\n\n"
  }

  /** One command per exit, in exit order. */
  method GetExitCommands() returns (cmds: seq<Command>)
    requires forall e :: e in exits ==> e.destination != null
    ensures |cmds| == |exits|
    ensures forall i :: 0 <= i < |exits| ==>
              cmds[i].names == exits[i].names && cmds[i].action == ExitAction(exits[i].GetDestination())
  {
    cmds := [];
    for i := 0 to |exits|
      invariant |cmds| == i
      invariant forall k :: 0 <= k < i ==>
                  cmds[k].names == exits[k].names && cmds[k].action == ExitAction(exits[k].GetDestination())
    {
      cmds := cmds + [exits[i].GenerateCommands()];
    }
  }

  method UpdateCommands()
    requires forall e :: e in exits ==> e.destination != null
    modifies this`commands
    ensures |commands| == |exits|
    ensures forall i :: 0 <= i < |exits| ==>
              commands[i].names == exits[i].names && commands[i].action == ExitAction(exits[i].GetDestination())
  {
    commands := GetExitCommands();
  }

  /** "Visible Exits: " and each exit's primary name followed by ", ", or a fixed sentence for none. */
  method ListExits() returns (text: string)
    ensures text == if exits == [] then "You can't see any exits." else "Visible Exits: " + ExitList(exits) + "\n"
  {
    var exitString := "";
    for i := 0 to |exits|
      invariant exitString == ExitList(exits[..i])
    {
      assert exits[..i + 1][..i] == exits[..i];
      exitString := exitString + exits[i].GetPrimaryName() + ", ";
    }
    assert exits[..|exits|] == exits;
    if |exits| > 0 {
      return "Visible Exits: " + exitString + "\n";
    }
    return "You can't see any exits.";
  }

  /** Nothing for an empty room; otherwise "You see:\n" and a "- name" line per occupant. */
  method ShowContents() returns (output: string)
    ensures output == if contents == [] then "" else "You see:\n" + ContentsLines(NamesOf(contents))
  {
    output := "";
    if |contents| > 0 {
      output := "You see:\n";
    }
    ghost var head := output;
    for i := 0 to |contents|
      invariant output == head + ContentsLines(NamesOf(contents[..i]))
    {
      assert contents[..i + 1][..i] == contents[..i];
      output := output + "\n- " + contents[i].name + "\n";
    }
    assert contents[..|contents|] == contents;
  }

  method DisplayRoom() returns (text: string)
    ensures text == GetDescription() + "\n" +
                    (if contents == [] then "" else "You see:\n" + ContentsLines(NamesOf(contents))) + "\n" +
                    (if exits == [] then "You can't see any exits." else "Visible Exits: " + ExitList(exits) + "\n")
  {
    var shown := ShowContents();
    var listed := ListExits();
    text := GetDescription() + "\n" + shown + "\n" + listed;
  }

  /** The mob moves in: its location becomes this room and it joins the end of the contents. */
  method EnterRoom(p: Mob) returns (entered: bool)
    modifies this`contents, p`location
    ensures p.location == this
    ensures contents == old(contents) + [p]
    ensures entered
  {
    p.location := this;
    contents := contents + [p];
    return true;
  }

  /**
   * Removes the occupant named like p. Go ranges over the slice it splices,
   * so with two occupants of one name the second splice can go out of
   * bounds; names are therefore required to be unique.
   */
  method LeaveRoom(p: Mob) returns (left: bool)
    requires UniqueNames(contents)
    modifies this`contents
    ensures contents == RemoveNamed(old(contents), p.name)
    ensures left
  {
    var snapshot, name := contents, p.name;
    ghost var idx := FirstNamed(snapshot, name);
    ghost var removed := RemoveNamed(snapshot, name);
    if idx < |snapshot| {
      OnlyNamesake(snapshot, idx);
      RemoveNamedAt(snapshot, idx);
    }
    for pos := 0 to |snapshot|
      invariant contents == if pos <= idx then snapshot else removed
    {
      if snapshot[pos].name == name {
        assert pos == idx;
        contents := contents[..pos] + contents[pos + 1..];
      }
    }
    return true;
  }
}

function Repeat(c: char, n: nat): (s: string)
  ensures |s| == n && forall i :: 0 <= i < n ==> s[i] == c
{
  if n == 0 then "" else Repeat(c, n - 1) + [c]
}

/** The primary names of the exits, each followed by ", ". */
function ExitList(exits: seq<Exit>): string
{
  if exits == [] then "" else ExitList(exits[..|exits| - 1]) + Entry(exits[|exits| - 1])
}

/** One exit's part of the listing. */
function Entry(e: Exit): string
{
  e.GetPrimaryName() + ", "
}

/** Listing one more exit appends its entry. */
lemma ExitListSnoc(s: seq<Exit>, e: Exit)
  ensures ExitList(s + [e]) == ExitList(s) + Entry(e)
{
  assert (s + [e])[..|s|] == s;
}

/** Listing a concatenation of exits lists the first part, then the second. */
lemma {:induction false} ExitListAppend(a: seq<Exit>, b: seq<Exit>)
  ensures ExitList(a + b) == ExitList(a) + ExitList(b)
  decreases |b|
{
  if b == [] {
    assert a + b == a;
  } else {
    var b', e := b[..|b| - 1], b[|b| - 1];
    assert b == b' + [e];
    assert a + b == (a + b') + [e];
    ExitListSnoc(a + b', e);
    ExitListSnoc(b', e);
    ExitListAppend(a, b');
    AppendAssoc(ExitList(a), ExitList(b'), Entry(e));
  }
}

/** Concatenation is associative; stated once so that proofs about listings need not unfold them. */
lemma AppendAssoc(x: string, y: string, z: string)
  ensures (x + y) + z == x + (y + z)
{
}

function NamesOf(ms: seq<Mob>): (names: seq<string>)
  reads ms
  ensures |names| == |ms| && forall i :: 0 <= i < |ms| ==> names[i] == ms[i].name
{
  if ms == [] then [] else NamesOf(ms[..|ms| - 1]) + [ms[|ms| - 1].name]
}

/** One "\n- name\n" entry per occupant name, in order. */
function ContentsLines(names: seq<string>): string
{
  if names == [] then "" else ContentsLines(names[..|names| - 1]) + "\n- " + names[|names| - 1] + "\n"
}

/** The occupant listing of a concatenation lists the first part, then the second. */
lemma {:induction false} ContentsLinesAppend(a: seq<string>, b: seq<string>)
  ensures ContentsLines(a + b) == ContentsLines(a) + ContentsLines(b)
  decreases |b|
{
  if b == [] {
    assert a + b == a;
  } else {
    var b' := b[..|b| - 1];
    assert (a + b)[..|a + b| - 1] == a + b';
    assert (a + b)[|a + b| - 1] == b[|b| - 1];
    ContentsLinesAppend(a, b');
  }
}

ghost predicate UniqueNames(ms: seq<Mob>)
  reads ms
{
  forall i, j :: 0 <= i < j < |ms| ==> ms[i].name != ms[j].name
}

predicate NameIn(ms: seq<Mob>, name: string)
  reads ms
{
  exists i :: 0 <= i < |ms| && ms[i].name == name
}

/**
 * The occupants without the first one named `name`, the others in their
 * order; the same occupants when none has that name.
 */
function RemoveNamed(ms: seq<Mob>, name: string): (r: seq<Mob>)
  reads ms
  ensures NameIn(ms, name) ==> |r| == |ms| - 1
  ensures !NameIn(ms, name) ==> r == ms
  ensures forall m :: m in r ==> m in ms
{
  if ms == [] then []
  else if ms[0].name == name then ms[1..]
  else
    var rest := RemoveNamed(ms[1..], name);
    assert NameIn(ms[1..], name) ==> NameIn(ms, name) by {
      if NameIn(ms[1..], name) {
        var i :| 0 <= i < |ms[1..]| && ms[1..][i].name == name;
        assert ms[i + 1].name == name;
      }
    }
    assert NameIn(ms, name) ==> NameIn(ms[1..], name) by {
      if NameIn(ms, name) {
        var i :| 0 <= i < |ms| && ms[i].name == name;
        assert ms[1..][i - 1].name == name;
      }
    }
    [ms[0]] + rest
}

/** Dropping the first occupant keeps names unique. */
lemma UniqueTail(ms: seq<Mob>)
  requires UniqueNames(ms) && ms != []
  ensures UniqueNames(ms[1..])
{
  var tail := ms[1..];
  forall i, j | 0 <= i < j < |tail|
    ensures tail[i].name != tail[j].name
  {
    assert tail[i] == ms[i + 1] && tail[j] == ms[j + 1];
  }
}

/** The position of the first occupant named `name`, or |ms| when there is none. */
function FirstNamed(ms: seq<Mob>, name: string): (k: nat)
  reads ms
  ensures k <= |ms|
  ensures k < |ms| ==> ms[k].name == name
  ensures forall j :: 0 <= j < k ==> ms[j].name != name
  ensures k == |ms| <==> !NameIn(ms, name)
{
  if ms == [] then 0
  else if ms[0].name == name then 0
  else 1 + FirstNamed(ms[1..], name)
}

/** With unique names, the occupant at k is the only one with its name. */
lemma OnlyNamesake(ms: seq<Mob>, k: int)
  requires UniqueNames(ms) && 0 <= k < |ms|
  ensures forall j :: 0 <= j < |ms| && j != k ==> ms[j].name != ms[k].name
{
}

/** With unique names, removing the occupant at pos is removing by its name. */
lemma {:induction false} RemoveNamedAt(ms: seq<Mob>, pos: int)
  requires UniqueNames(ms) && 0 <= pos < |ms|
  ensures RemoveNamed(ms, ms[pos].name) == ms[..pos] + ms[pos + 1..]
{
  if pos > 0 {
    var name, tail := ms[pos].name, ms[1..];
    assert ms[0].name != name;
    assert tail[pos - 1] == ms[pos];
    UniqueTail(ms);
    RemoveNamedAt(tail, pos - 1);
    assert RemoveNamed(ms, name) == [ms[0]] + RemoveNamed(tail, name);
    assert ms[..pos] == [ms[0]] + tail[..pos - 1];
    assert ms[pos + 1..] == tail[pos..];
  }
}

/** With unique names, nobody of the removed name is left: a second leave changes nothing. */
lemma {:induction false} NameInRemoveNamed(ms: seq<Mob>, name: string)
  requires UniqueNames(ms)
  ensures !NameIn(RemoveNamed(ms, name), name)
  ensures RemoveNamed(RemoveNamed(ms, name), name) == RemoveNamed(ms, name)
{
  if ms != [] {
    if ms[0].name == name {
      assert forall i :: 0 <= i < |ms[1..]| ==> ms[1..][i] == ms[i + 1];
    } else {
      NameInRemoveNamed(ms[1..], name);
    }
  }
}
