/**
 * Commands (commands.go): a command is a list of aliases and an action.
 * Go's actions are closures over a mob; here each is a descriptor of what
 * the closure does, and Mob.Execute runs it.
 */

/** What a command's closure does when a mob runs it. */
datatype Cmd =
  | LookAction                 // shows the mob's location
  | ExitsAction                // lists the location's exits
  | QuitAction                 // stops the mob's world
  | NoCommandAction            // the fallback for unknown input
  | ExitAction(room: Room)     // enters `room`

datatype Command = Command(names: seq<string>, action: Cmd)

/** `look`: shows the location, and answers "look" and "l" in any case. */
function LookCommand(): (c: Command)
  ensures c.action == LookAction
  ensures forall input :: HasAlias(c.names, input) <==> Lower(input) in {"look", "l"}
{
  var c := Command(["look", "l"], LookAction);
  assert forall input :: HasAlias(c.names, input) <==> Lower(input) in {"look", "l"} by {
    forall input ensures HasAlias(c.names, input) <==> Lower(input) in {"look", "l"} {
      LookAliases(input);
    }
  }
  c
}

/** `exits`: lists the exits, and answers "exits", "doors" and "dirs" in any case. */
function ExitCommand(): (c: Command)
  ensures c.action == ExitsAction
  ensures forall input :: HasAlias(c.names, input) <==> Lower(input) in {"exits", "doors", "dirs"}
{
  var c := Command(["exits", "doors", "dirs"], ExitsAction);
  assert forall input :: HasAlias(c.names, input) <==> Lower(input) in {"exits", "doors", "dirs"} by {
    forall input ensures HasAlias(c.names, input) <==> Lower(input) in {"exits", "doors", "dirs"} {
      ExitAliases(input);
    }
  }
  c
}

/** `quit`: stops the world, and answers "quit" and "q" in any case. */
function QuitCommand(): (c: Command)
  ensures c.action == QuitAction
  ensures forall input :: HasAlias(c.names, input) <==> Lower(input) in {"quit", "q"}
{
  var c := Command(["quit", "q"], QuitAction);
  assert forall input :: HasAlias(c.names, input) <==> Lower(input) in {"quit", "q"} by {
    forall input ensures HasAlias(c.names, input) <==> Lower(input) in {"quit", "q"} {
      QuitAliases(input);
    }
  }
  c
}

/** The action the basic commands select for an input whose lower-cased form is `s`. */
function BasicAction(s: string): Cmd
{
  if s in {"look", "l"} then LookAction
  else if s in {"exits", "doors", "dirs"} then ExitsAction
  else if s in {"quit", "q"} then QuitAction
  else NoCommandAction
}

/**
 * The commands every mob starts with: look, exits and quit, in this order,
 * so that every input selects one of them by its lower-cased form, or the
 * fallback.
 */
function BasicCommands(): (cs: seq<Command>)
  ensures |cs| == 3
  ensures forall input :: ParseInput(input, cs) == BasicAction(Lower(input))
{
  var cs := [LookCommand(), ExitCommand(), QuitCommand()];
  assert forall input :: ParseInput(input, cs) == BasicAction(Lower(input)) by {
    forall input ensures ParseInput(input, cs) == BasicAction(Lower(input)) {
      BasicCommandsDispatch(input);
    }
  }
  cs
}

/** The action that moves a mob into `room`. */
function GenerateExitAction(room: Room): (action: Cmd)
  ensures action.ExitAction? && action.room == room
{
  ExitAction(room)
}

/** ASCII lower-casing of one character. */
function LowerChar(c: char): char
{
  if 'A' <= c <= 'Z' then (c as int + ('a' as int - 'A' as int)) as char else c
}

/** `strings.ToLower`, restricted to ASCII letters. */
function Lower(s: string): (r: string)
{
  seq(|s|, i requires 0 <= i < |s| => LowerChar(s[i]))
}

/** Lower-casing twice is lower-casing once. */
lemma LowerIdempotent(s: string)
  ensures Lower(Lower(s)) == Lower(s)
{
}

/**
 * The inner loop of `parseInput`: a command answers the input exactly when
 * one of its aliases equals the input after lower-casing both.
 */
function HasAlias(names: seq<string>, input: string): (found: bool)
  ensures found <==> exists i :: 0 <= i < |names| && Lower(names[i]) == Lower(input)
{
  if names == [] then false
  else
    assert forall i :: 1 <= i < |names| ==> names[i] == names[1..][i - 1];
    Lower(names[0]) == Lower(input) || HasAlias(names[1..], input)
}

/**
 * The action of the first command, in list order, that has an alias equal
 * to the input after lower-casing both; `noCommandAction` when none has.
 */
function ParseInput(input: string, commands: seq<Command>): (action: Cmd)
  ensures (forall i :: 0 <= i < |commands| ==> !HasAlias(commands[i].names, input)) ==>
            action == NoCommandAction
  ensures forall i :: 0 <= i < |commands| && HasAlias(commands[i].names, input) ==>
            (forall j :: 0 <= j < i ==> !HasAlias(commands[j].names, input)) ==> action == commands[i].action
{
  if commands == [] then NoCommandAction
  else if HasAlias(commands[0].names, input) then commands[0].action
  else
    var rest := commands[1..];
    var action := ParseInput(input, rest);
    assert forall i :: 1 <= i < |commands| ==> commands[i] == rest[i - 1];
    assert forall i :: 0 <= i < |commands| && HasAlias(commands[i].names, input) ==>
             (forall j :: 0 <= j < i ==> !HasAlias(commands[j].names, input)) ==> action == commands[i].action by {
      forall i | 0 <= i < |commands| && HasAlias(commands[i].names, input) &&
                 forall j :: 0 <= j < i ==> !HasAlias(commands[j].names, input)
        ensures action == commands[i].action
      {
        assert forall j :: 0 <= j < i - 1 ==> !HasAlias(rest[j].names, input);
      }
    }
    action
}

/** Inputs that agree after lower-casing select the same action. */
lemma {:induction false} ParseInputIgnoresCase(a: string, b: string, commands: seq<Command>)
  requires Lower(a) == Lower(b)
  ensures ParseInput(a, commands) == ParseInput(b, commands)
{
  if commands != [] {
    ParseInputIgnoresCase(a, b, commands[1..]);
  }
}

/** A string without upper-case letters is its own lower-case form. */
lemma LowerOfLowerCase(s: string)
  requires forall i :: 0 <= i < |s| ==> !('A' <= s[i] <= 'Z')
  ensures Lower(s) == s
{
}

lemma HasAlias2(a: string, b: string, input: string)
  ensures HasAlias([a, b], input) == (Lower(a) == Lower(input) || Lower(b) == Lower(input))
{
  assert [b][1..] == [];
  assert HasAlias([b], input) == (Lower(b) == Lower(input));
  assert [a, b][1..] == [b];
}

lemma HasAlias3(a: string, b: string, c: string, input: string)
  ensures HasAlias([a, b, c], input) ==
            (Lower(a) == Lower(input) || Lower(b) == Lower(input) || Lower(c) == Lower(input))
{
  HasAlias2(b, c, input);
  assert [a, b, c][1..] == [b, c];
}

/** The aliases of look, exits and quit, compared after lower-casing the input. */
lemma LookAliases(input: string)
  ensures HasAlias(["look", "l"], input) <==> Lower(input) in {"look", "l"}
{
  LowerOfLowerCase("look");
  LowerOfLowerCase("l");
  HasAlias2("look", "l", input);
}

lemma ExitAliases(input: string)
  ensures HasAlias(["exits", "doors", "dirs"], input) <==> Lower(input) in {"exits", "doors", "dirs"}
{
  LowerOfLowerCase("exits");
  LowerOfLowerCase("doors");
  LowerOfLowerCase("dirs");
  HasAlias3("exits", "doors", "dirs", input);
}

lemma QuitAliases(input: string)
  ensures HasAlias(["quit", "q"], input) <==> Lower(input) in {"quit", "q"}
{
  LowerOfLowerCase("quit");
  LowerOfLowerCase("q");
  HasAlias2("quit", "q", input);
}

/** How look, exits and quit, in this order, dispatch one input. */
lemma BasicCommandsDispatch(input: string)
  ensures ParseInput(input, [LookCommand(), ExitCommand(), QuitCommand()]) == BasicAction(Lower(input))
{
  var look, exits, quit := LookCommand(), ExitCommand(), QuitCommand();
  assert [quit][1..] == [];
  assert ParseInput(input, [quit]) == if HasAlias(quit.names, input) then QuitAction else NoCommandAction;
  assert [exits, quit][1..] == [quit];
  assert ParseInput(input, [exits, quit]) ==
    if HasAlias(exits.names, input) then ExitsAction else ParseInput(input, [quit]);
  assert [look, exits, quit][1..] == [exits, quit];
}
