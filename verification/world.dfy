/**
 * The world (world.go): its rooms, whether it is running, and the pulses
 * handed to registered things. Pulses are abstract handles; closing one is
 * recorded in `closed`.
 */

/** A pulse handle; the registry hands them out numbered in order. */
datatype Pulse = Pulse(id: nat)

class World {
  var rooms: seq<Room>
  var running: bool
  var things: seq<Pulse>
  var closed: set<Pulse>

  /** Pulses are numbered by registration order, and only registered pulses are closed. */
  ghost predicate Valid()
    reads this
  {
    && (forall i :: 0 <= i < |things| ==> things[i] == Pulse(i))
    && (forall p :: p in closed ==> p.id < |things|)
  }

  /** Every pulse in the registry. */
  ghost function Registered(): set<Pulse>
    reads this
  {
    set i | 0 <= i < |things| :: things[i]
  }

  /** `newWorld`: the given rooms, not running, nothing registered. */
  constructor (rooms: seq<Room>)
    ensures Valid() && this.rooms == rooms && !running && things == [] && closed == {}
  {
    this.rooms := rooms;
    running := false;
    things := [];
    closed := {};
  }

  /** The room new mobs start in: the first of the world's rooms. */
  function GetStartRoom(): (start: Room)
    reads this
    requires |rooms| > 0
    ensures start in rooms
  {
    rooms[0]
  }

  /**
   * Hands a fresh pulse to `p` and records it, or fails when the world is
   * not running.
   */
  method RegisterThing(p: Mob) returns (r: Result<Pulse>)
    requires Valid()
    modifies this`things, p`pulse
    ensures Valid()
    ensures r.Ok? <==> running
    ensures r.Ok? ==> r.value !in old(things) && things == old(things) + [r.value] && p.pulse == Some(r.value)
    ensures r.Err? ==> things == old(things) && p.pulse == old(p.pulse)
    ensures r.Err? ==> r.msg == "Unable to register - world is not running."
  {
    if running {
      var pulse := Pulse(|things|);
      p.Register(pulse);
      things := things + [pulse];
      return Ok(pulse);
    } else {
      return Err("Unable to register - world is not running.");
    }
  }

  method StartWorld()
    modifies this`running
    ensures running
  {
    running := true;
  }

  /**
   * Stops the world and closes every registered pulse. The registry is kept,
   * so a second stop would close them again, which panics in Go: stopping
   * requires that no pulse is closed yet.
   */
  method StopWorld()
    requires Valid() && closed == {}
    modifies this`running, this`closed
    ensures Valid() && !running
    ensures closed == Registered()
  {
    running := false;
    for i := 0 to |things|
      invariant Valid()
      invariant !running
      invariant closed == set j | 0 <= j < i :: things[j]
    {
      assert things[i] !in closed;  // each pulse is closed exactly once
      closed := closed + {things[i]};
    }
  }

  /**
   * The users a sound in `location` reaches: those whose mob stands in a
   * room with the same name, in user order. The match is by name, so two
   * rooms sharing a name hear each other.
   */
  method RoomEmitRecipients(users: seq<Mob>, location: Room) returns (targets: seq<Mob>)
    requires forall u :: u in users ==> u.location != null
    ensures targets == AtRoom(users, location.name)
  {
    targets := [];
    for i := 0 to |users|
      invariant targets == AtRoom(users[..i], location.name)
    {
      assert users[..i + 1][..i] == users[..i];
      if users[i].location.name == location.name {
        targets := targets + [users[i]];
      }
    }
    assert users[..|users|] == users;
  }
}

/** The users, in order, whose mob stands in a room called `name`. */
function AtRoom(users: seq<Mob>, name: string): (r: seq<Mob>)
  requires forall u :: u in users ==> u.location != null
  reads users, set u | u in users :: u.location
  ensures forall i :: 0 <= i < |r| ==> r[i] in users && r[i].location.name == name
  ensures forall i :: 0 <= i < |users| && users[i].location.name == name ==> users[i] in r
  ensures |r| <= |users|
{
  if users == [] then []
  else
    var init := users[..|users| - 1];
    var last := users[|users| - 1];
    assert users == init + [last];
    AtRoom(init, name) + if last.location.name == name then [last] else []
}
