/**
 * Exits (exits.go): an exit is one half of a link, owned by a room and
 * pointing at its opposite half, whose room is the destination.
 */

class Exit {
  const names: seq<string>
  const room: Room
  var destination: Exit?

  constructor (names: seq<string>, room: Room)
    ensures this.names == names && this.room == room && destination == null
  {
    this.names := names;
    this.room := room;
    destination := null;
  }

  /** The room on the other side: the owner of the paired exit. */
  function GetDestination(): (r: Room)
    reads this
    requires destination != null
    ensures r == destination.room
  {
    destination.room
  }

  /** The first alias, or "Void" for an exit without aliases. */
  function GetPrimaryName(): (name: string)
    ensures names != [] ==> name == names[0]
    ensures names == [] ==> name == "Void"
  {
    if |names| >= 1 then names[0] else "Void"
  }

  /** A command with the exit's aliases whose action enters the destination. */
  function GenerateCommands(): (cmd: Command)
    reads this
    requires destination != null
    ensures cmd.names == names && cmd.action == ExitAction(GetDestination())
  {
    Command(names, GenerateExitAction(GetDestination()))
  }
}

/** Every exit owned by a room of the graph. */
ghost function ExitsOf(graph: set<Room>): set<Exit>
  reads graph
{
  set r, e | r in graph && e in r.exits :: e
}

/**
 * The room graph is symmetric: every exit of a room of the graph belongs to
 * that room and is paired with an exit of a room of the graph that points
 * straight back at it, so A -> B implies B -> A.
 */
ghost predicate Symmetric(graph: set<Room>)
  reads graph, ExitsOf(graph)
{
  forall r, e :: r in graph && e in r.exits ==>
    && e.room == r
    && e.destination != null
    && e.destination.room in graph
    && e.destination in e.destination.room.exits
    && e.destination.destination == e
}

/** The two alias lists of an exit and its pair name opposite cardinals. */
predicate OppositeNames(a: seq<string>, b: seq<string>)
{
  exists d :: IsCardinal(d) && a == DirToCommandStrings(d) && b == DirToCommandStrings(InvertDir(d))
}

/** Every exit of the graph is named by a cardinal and its pair by the inverse cardinal. */
ghost predicate CardinallyNamed(graph: set<Room>)
  reads graph, ExitsOf(graph)
{
  forall r, e :: r in graph && e in r.exits && e.destination != null ==>
    OppositeNames(e.names, e.destination.names)
}

/** A graph of rooms without exits is trivially symmetric and cardinally named. */
lemma UnlinkedGraph(graph: set<Room>)
  requires forall r :: r in graph ==> r.exits == []
  ensures Symmetric(graph) && CardinallyNamed(graph)
{
}

/**
 * Links two rooms with a fresh pair of exits: the start side, named
 * startDir, is appended to start's exits and leads to end; the end side,
 * named endDir, is appended to end's exits and leads back. The exits are
 * returned so that callers can name them.
 */
method ConnectRooms(start: Room, end: Room, startDir: seq<string>, endDir: seq<string>, ghost graph: set<Room>)
  returns (startSide: Exit, endSide: Exit)
  modifies start`exits, end`exits
  ensures fresh(startSide) && fresh(endSide)
  ensures startSide.names == startDir && startSide.room == start
  ensures endSide.names == endDir && endSide.room == end
  ensures startSide.destination == endSide && endSide.destination == startSide
  ensures startSide.GetDestination() == end && endSide.GetDestination() == start
  ensures start != end ==> start.exits == old(start.exits) + [startSide] && end.exits == old(end.exits) + [endSide]
  ensures start == end ==> start.exits == old(start.exits) + [startSide, endSide]
  ensures old(Symmetric(graph)) && start in graph && end in graph ==> Symmetric(graph)
{
  startSide := new Exit(startDir, start);
  endSide := new Exit(endDir, end);
  startSide.destination := endSide;
  endSide.destination := startSide;
  start.exits := start.exits + [startSide];
  end.exits := end.exits + [endSide];
  if old(Symmetric(graph)) && start in graph && end in graph {
    forall r, e | r in graph && e in r.exits
      ensures e.room == r && e.destination != null && e.destination.room in graph
      ensures e.destination in e.destination.room.exits && e.destination.destination == e
    {
      if e != startSide && e != endSide {
        assert e in old(r.exits);
        assert old(e.destination) == e.destination;
        assert e.destination in old(e.destination.room.exits);
      }
    }
  }
}

/**
 * Links two rooms with exits named after `dir` on the start side and after
 * its inverse on the end side.
 */
method ConnectRoomsCardinally(start: Room, end: Room, dir: Direction, ghost graph: set<Room>)
  returns (startSide: Exit, endSide: Exit)
  modifies start`exits, end`exits
  ensures fresh(startSide) && fresh(endSide)
  ensures startSide.names == DirToCommandStrings(dir) && startSide.room == start
  ensures endSide.names == DirToCommandStrings(InvertDir(dir)) && endSide.room == end
  ensures startSide.destination == endSide && endSide.destination == startSide
  ensures start != end ==> start.exits == old(start.exits) + [startSide] && end.exits == old(end.exits) + [endSide]
  ensures start == end ==> start.exits == old(start.exits) + [startSide, endSide]
  ensures old(Symmetric(graph)) && start in graph && end in graph ==> Symmetric(graph)
  ensures IsCardinal(dir) && old(Symmetric(graph) && CardinallyNamed(graph)) && start in graph && end in graph ==>
            CardinallyNamed(graph)
{
  startSide, endSide := ConnectRooms(start, end, DirToCommandStrings(dir), DirToCommandStrings(InvertDir(dir)), graph);
  if IsCardinal(dir) {
    InvertDirInvolution(dir);
    assert OppositeNames(startSide.names, endSide.names);
    assert OppositeNames(endSide.names, startSide.names) by {
      assert endSide.names == DirToCommandStrings(InvertDir(dir));
      assert startSide.names == DirToCommandStrings(InvertDir(InvertDir(dir)));
    }
  }
}

/** The primary name of a cardinal exit is the full direction word. */
lemma CardinalPrimaryName(e: Exit, dir: Direction)
  requires e.names == DirToCommandStrings(dir)
  ensures e.GetPrimaryName() == DirToString(dir)
{
}
