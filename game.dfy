/**
 * The registry of rooms, keyed by the identifier of the conversation the
 * room is played in.
 */
module Games {
  import opened Errors
  import opened Squares
  import opened Boards
  import opened Players
  import opened Rooms

  /**
   * An identifier as the registry receives it: missing (undefined or null),
   * not a number, or a usable key.
   */
  datatype RoomId = Missing | NotANumber | Key(key: string)

  class Game {
    /** The rooms by key; a key maps to at most one room. */
    var rooms: map<string, Room>
    ghost var Repr: set<object>

    /**
     * Every registered room is valid and lies in the registry's footprint,
     * apart from the registry itself, and two keys never share any part of
     * their rooms: each key has a room of its own.
     */
    ghost predicate Valid()
      reads this, Repr
    {
      && this in Repr
      && (forall k :: k in rooms ==>
            && rooms[k] in Repr && rooms[k].Repr <= Repr && this !in rooms[k].Repr
            && rooms[k].Valid())
      && (forall k, k' :: k in rooms && k' in rooms && k != k' ==> rooms[k].Repr !! rooms[k'].Repr)
    }

    /** No room yet. */
    constructor ()
      ensures Valid() && fresh(Repr)
      ensures rooms == map[]
    {
      rooms := map[];
      Repr := {this};
    }

    /**
     * A new room under id for the creator and a second player of the given
     * type (`coin` draws the starter of a game between two humans). Fails on
     * an unusable id or a key already in use, changing nothing.
     */
    method NewRoom(id: RoomId, first: Member, second: Option<Member>, secondType: PlayerType, coin: nat)
      returns (r: Outcome)
      requires Valid()
      requires coin < 2
      requires secondType == Human ==> second.Some?
      modifies this
      ensures Valid() && fresh(Repr - old(Repr))
      ensures !id.Key? ==> r == Fail(InvalidId) && rooms == old(rooms)
      ensures id.Key? && id.key in old(rooms) ==> r == Fail(RoomExists) && rooms == old(rooms)
      ensures id.Key? && id.key !in old(rooms) ==>
                && r == Pass
                && id.key in rooms && rooms == old(rooms)[id.key := rooms[id.key]]
                && fresh(rooms[id.key]) && rooms[id.key].Valid() && fresh(rooms[id.key].Repr)
                && rooms[id.key].board.cells == EmptyGrid
                && rooms[id.key].players[0].member == Some(first)
                && rooms[id.key].players[0].id == first.id
                && rooms[id.key].players[1].member == second
                && rooms[id.key].players[1].kind == secondType
                && rooms[id.key].current == (if secondType == Human then coin else 0)
                && rooms[id.key].players[rooms[id.key].current].squareType == Some(X)
                && rooms[id.key].players[1 - rooms[id.key].current].squareType == Some(O)
    {
      if !id.Key? {
        return Fail(InvalidId);
      }
      if id.key in rooms {
        return Fail(RoomExists);
      }
      var room := new Room(first, second, secondType, coin);
      rooms := rooms[id.key := room];
      Repr := Repr + room.Repr;
      r := Pass;
    }

    /** The room under id, None when there is none; fails on an unusable id. */
    method GetRoom(id: RoomId) returns (r: Result<Option<Room>>)
      requires Valid()
      ensures r.Ok? && r.value.Some? ==> r.value.value.Valid() && r.value.value.Repr <= Repr
      ensures !id.Key? ==> r == Err(InvalidId)
      ensures id.Key? && id.key !in rooms ==> r == Ok(None)
      ensures id.Key? && id.key in rooms ==> r == Ok(Some(rooms[id.key]))
    {
      if !id.Key? {
        return Err(InvalidId);
      }
      if id.key in rooms {
        return Ok(Some(rooms[id.key]));
      }
      return Ok(None);
    }

    /** Whether a room is registered under id; fails on an unusable id. */
    method Has(id: RoomId) returns (r: Result<bool>)
      ensures !id.Key? ==> r == Err(InvalidId)
      ensures id.Key? ==> r == Ok(id.key in rooms)
    {
      if !id.Key? {
        return Err(InvalidId);
      }
      return Ok(id.key in rooms);
    }

    /** The room under id, if any, is dropped; fails on an unusable id. */
    method Stop(id: RoomId) returns (r: Outcome)
      requires Valid()
      modifies this
      ensures Valid() && Repr == old(Repr)
      ensures !id.Key? ==> r == Fail(InvalidId) && rooms == old(rooms)
      ensures id.Key? ==> r == Pass && rooms == old(rooms) - {id.key}
    {
      if !id.Key? {
        return Fail(InvalidId);
      }
      rooms := rooms - {id.key};
      r := Pass;
    }
  }

  /**
   * Opening a room twice under one key fails the second time, and once the
   * room is stopped the registry no longer has it.
   */
  method RegistryLifecycle(key: string, first: Member) returns (again: Outcome, hasAfterStop: Result<bool>)
    ensures again == Fail(RoomExists)
    ensures hasAfterStop == Ok(false)
  {
    var game := new Game();
    var created := game.NewRoom(Key(key), first, None, EasyBot, 0);
    again := game.NewRoom(Key(key), first, None, EasyBot, 0);
    var stopped := game.Stop(Key(key));
    hasAfterStop := game.Has(Key(key));
  }
}
