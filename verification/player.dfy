/**
 * Mobs (player.go): a mob has a location, a name, its commands, a pulse
 * from its world and a queue of pending actions; on every pulse it runs at
 * most one queued action, oldest first.
 */

class Mob {
  var location: Room?
  var name: string
  var commands: seq<Command>
  var world: World?
  var pulse: Option<Pulse>
  var cmdQueue: seq<Cmd>
  var description: string

  /** `newMob`: unnamed, unplaced, unregistered, with the basic commands. */
  constructor ()
    ensures name == "" && commands == BasicCommands() && description == "A generic looking person."
    ensures location == null && world == null && pulse == None && cmdQueue == []
  {
    location := null;
    name := "";
    commands := BasicCommands();
    world := null;
    pulse := None;
    cmdQueue := [];
    description := "A generic looking person.";
  }

  /** Stores the pulse a world hands out. */
  method Register(pulse: Pulse)
    modifies this`pulse
    ensures this.pulse == Some(pulse)
  {
    this.pulse := Some(pulse);
  }

  /**
   * Names the mob, registers it with the world and places it in the world's
   * start room. The name is set before registration, so it stays set when
   * registration fails; nothing else changes then.
   */
  method Spawn(name: string, world: World) returns (err: Option<string>)
    requires world.Valid() && |world.rooms| > 0
    modifies this`name, this`pulse, this`location, world`things, StartRooms(world)`contents
    ensures this.name == name && world.Valid()
    ensures err.Some? <==> !world.running
    ensures err.Some? ==> err.value == "Unable to register - world is not running."
    ensures err.Some? ==> pulse == old(pulse) && location == old(location) &&
                          world.things == old(world.things) && world.rooms[0].contents == old(world.rooms[0].contents)
    ensures err.None? ==> pulse.Some? && pulse.value !in old(world.things) && world.things == old(world.things) + [pulse.value]
    ensures err.None? ==> location == world.rooms[0] && location.contents == old(world.rooms[0].contents) + [this]
  {
    this.name := name;
    var start := world.GetStartRoom();
    var registered := world.RegisterThing(this);
    if registered.Err? {
      return Some(registered.msg);
    }
    pulse := Some(registered.value);
    var _ := start.EnterRoom(this);
    return None;
  }

  /** The room a spawn enters. */
  function StartRooms(world: World): set<Room>
    reads world
  {
    if |world.rooms| > 0 then {world.rooms[0]} else {}
  }

  /** The rooms running `cmd` adds this mob to. */
  function RoomsEntered(cmd: Cmd): set<Room>
  {
    if cmd.ExitAction? then {cmd.room} else {}
  }

  /** The world running `cmd` stops. */
  function WorldsStopped(cmd: Cmd): set<World>
    reads this
  {
    if cmd.QuitAction? && world != null then {world} else {}
  }

  /**
   * Runs one action for this mob. Only two actions change state: an exit
   * action enters its room and returns what entering returns; quit stops the
   * mob's world, which must be set (Go dereferences it). Look, exits and the
   * fallback only write output, and all return true.
   */
  method Execute(cmd: Cmd) returns (did: bool)
    requires cmd.QuitAction? ==> world != null && world.Valid() && world.closed == {}
    modifies this`location, RoomsEntered(cmd)`contents, WorldsStopped(cmd)`running, WorldsStopped(cmd)`closed
    ensures did
    ensures cmd.ExitAction? ==> location == cmd.room && cmd.room.contents == old(cmd.room.contents) + [this]
    ensures !cmd.ExitAction? ==> location == old(location)
    ensures cmd.QuitAction? ==> world.Valid() && !world.running && world.closed == world.Registered()
  {
    match cmd
    case ExitAction(room) =>
      did := room.EnterRoom(this);
    case QuitAction =>
      world.StopWorld();
      did := true;
    case _ =>
      did := true;
  }

  /**
   * One pulse: with an empty queue nothing runs; otherwise the head of the
   * queue is popped and run, and the queue keeps the rest.
   */
  method Tick() returns (ran: Option<Cmd>)
    requires cmdQueue != [] && cmdQueue[0].QuitAction? ==> world != null && world.Valid() && world.closed == {}
    modifies this`cmdQueue, this`location
    modifies if cmdQueue != [] then RoomsEntered(cmdQueue[0]) else {}`contents
    modifies if cmdQueue != [] then WorldsStopped(cmdQueue[0]) else {}`running
    modifies if cmdQueue != [] then WorldsStopped(cmdQueue[0]) else {}`closed
    ensures (ran, cmdQueue) == Step(old(cmdQueue))
    ensures ran.None? ==> location == old(location)
    ensures ran.Some? && ran.value.ExitAction? ==>
              location == ran.value.room && ran.value.room.contents == old(ran.value.room.contents) + [this]
    ensures ran.Some? && !ran.value.ExitAction? ==> location == old(location)
    ensures ran.Some? && ran.value.QuitAction? ==> !world.running && world.closed == world.Registered()
  {
    if |cmdQueue| >= 1 {
      var nextCommand: Cmd;
      if |cmdQueue| >= 2 {
        nextCommand, cmdQueue := cmdQueue[0], cmdQueue[1..];
      } else {
        nextCommand, cmdQueue := cmdQueue[0], [];
      }
      var _ := Execute(nextCommand);
      ran := Some(nextCommand);
    } else {
      ran := None;
    }
  }
}

/**
 * What one pulse does to a queue: the action it runs, if any, and the queue
 * left behind. Nothing is lost or reordered.
 */
function Step(queue: seq<Cmd>): (r: (Option<Cmd>, seq<Cmd>))
  ensures r.0.None? <==> queue == []
  ensures (if r.0.Some? then [r.0.value] else []) + r.1 == queue
{
  if queue == [] then (None, []) else (Some(queue[0]), queue[1..])
}

/** The actions k pulses run, in order, and the queue they leave, with no enqueues in between. */
function Pulses(queue: seq<Cmd>, k: nat): (seq<Cmd>, seq<Cmd>)
{
  if k == 0 then ([], queue)
  else
    var (ran, rest) := Step(queue);
    var (later, left) := Pulses(rest, k - 1);
    ((if ran.Some? then [ran.value] else []) + later, left)
}

function Min(a: int, b: int): int { if a <= b then a else b }

/** FIFO: k pulses run the first min(k, n) queued actions in enqueue order and leave the others. */
lemma {:induction false} PulsesAreFifo(queue: seq<Cmd>, k: nat)
  ensures Pulses(queue, k) == (queue[..Min(k, |queue|)], queue[Min(k, |queue|)..])
{
  if k > 0 {
    if queue == [] {
      PulsesAreFifo([], k - 1);
    } else {
      var tail, m := queue[1..], Min(k - 1, |queue| - 1);
      assert Step(queue) == (Some(queue[0]), tail);
      PulsesAreFifo(tail, k - 1);
      assert Pulses(queue, k) == ([queue[0]] + tail[..m], tail[m..]);
      assert Min(k, |queue|) == m + 1;
      assert queue[..m + 1] == [queue[0]] + tail[..m];
      assert queue[m + 1..] == tail[m..];
    }
  }
}
