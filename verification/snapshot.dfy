/**
 * The first, single-file version of the game kept in main.go: rooms whose
 * exits are a map from a direction word to a room, `linkRooms`, which joins
 * two rooms both ways, and a player who walks along those exits. Its types
 * are distinct from the `Room` and `Mob` of the rest of the model.
 */
module MainSnapshot {

  // The `Option` of wrappers.dfy lives in the default module, which a named
  // module cannot import, so this module declares its own.
  datatype Option<T> = None | Some(value: T)

  /** The direction words `linkRooms` recognises. */
  const Recognised: set<string> := {"north", "south", "east", "west", "up", "down"}

  const NotRecognised := "Direction not recognised!"

  /** The word `linkRooms` uses for the way back, or None for a word it rejects. */
  function AntiDir(dir: string): (anti: Option<string>)
    ensures anti.Some? <==> dir in Recognised
    ensures anti.Some? ==> anti.value in Recognised && anti.value != dir
  {
    if dir == "north" then Some("south")
    else if dir == "south" then Some("north")
    else if dir == "east" then Some("west")
    else if dir == "west" then Some("east")
    else if dir == "up" then Some("down")
    else if dir == "down" then Some("up")
    else None
  }

  /** Going back the way back leads the original way. */
  lemma AntiDirInvolution(dir: string)
    requires dir in Recognised
    ensures AntiDir(AntiDir(dir).value) == Some(dir)
  {
  }

  /** `room`: a name, a description and exits keyed by direction word. */
  class Room {
    var description: string
    var name: string
    var exits: map<string, Room>

    /** `newRoom`: a room with the given texts and no exits. */
    constructor (description: string, name: string)
      ensures this.description == description && this.name == name && exits == map[]
    {
      this.description := description;
      this.name := name;
      exits := map[];
    }
  }

  /** `a`'s exit `dir` leads to `b`, and `b`'s exit the way back leads to `a`. */
  predicate Linked(a: Room, b: Room, dir: string)
    reads a, b
    requires dir in Recognised
  {
    dir in a.exits && a.exits[dir] == b &&
    AntiDir(dir).value in b.exits && b.exits[AntiDir(dir).value] == a
  }

  /**
   * `linkRooms`: for a recognised word, sets origin's exit `dir` to dest and
   * dest's exit the way back to origin, replacing any exits of those names
   * and keeping every other exit; for any other word, an error and no change.
   */
  method LinkRooms(origin: Room, dest: Room, dir: string) returns (err: Option<string>)
    modifies origin`exits, dest`exits
    ensures dir !in Recognised ==> err == Some(NotRecognised) && unchanged(origin, dest)
    ensures dir in Recognised ==> err == None && Linked(origin, dest, dir)
    ensures dir in Recognised && origin != dest ==>
              origin.exits == old(origin.exits)[dir := dest] &&
              dest.exits == old(dest.exits)[AntiDir(dir).value := origin]
    ensures dir in Recognised && origin == dest ==>
              origin.exits == old(origin.exits)[dir := origin][AntiDir(dir).value := origin]
  {
    var anti := AntiDir(dir);
    if anti.None? {
      return Some(NotRecognised);
    }
    origin.exits := origin.exits[dir := dest];
    dest.exits := dest.exits[anti.value := origin];
    return None;
  }

  /** `player`: where the player stands and the player's name. */
  class Player {
    var location: Room
    var name: string

    constructor (location: Room, name: string)
      ensures this.location == location && this.name == name
    {
      this.location := location;
      this.name := name;
    }

    /**
     * `move`: follows the current room's exit `dir` when there is one and
     * otherwise stays put.
     */
    method Move(dir: string) returns (moved: bool)
      modifies this`location
      ensures moved <==> dir in old(location.exits)
      ensures moved ==> location == old(location.exits)[dir]
      ensures !moved ==> location == old(location)
    {
      if dir in location.exits {
        location := location.exits[dir];
        return true;
      }
      return false;
    }
  }

  /**
   * After `linkRooms` succeeds, a player in the origin who moves `dir` and
   * then back stands in the origin again.
   */
  method WalkThereAndBack(origin: Room, dest: Room, dir: string, p: Player)
    requires dir in Recognised && p.location == origin
    modifies origin`exits, dest`exits, p`location
    ensures p.location == origin
  {
    var err := LinkRooms(origin, dest, dir);
    var there := p.Move(dir);
    assert p.location == dest;
    var back := p.Move(AntiDir(dir).value);
  }
}
