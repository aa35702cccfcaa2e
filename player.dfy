/**
 * A participant of a match: a human member of the chat server, or a bot of
 * one of three strengths.
 */
module Players {
  import opened Errors
  import opened Squares

  /** How a player chooses its moves. */
  datatype PlayerType = Human | EasyBot | RandomBot | CheatBot

  /** A member of the chat server, known here only by its id. */
  datatype Member = Member(id: int)

  class Player {
    /** The member's id for a human; -1 for a bot. */
    const id: int
    /** The member behind the player; None (null) for a bot. */
    const member: Option<Member>
    /** The player's type (`type` in the source). */
    const kind: PlayerType
    /** The mark the player was given; None (null) until it is set. */
    var squareType: Option<SquareType>

    /** A human must come with a member, whose id the player takes. */
    constructor (member: Option<Member>, kind: PlayerType)
      requires kind == Human ==> member.Some?
      ensures kind == Human ==> id == member.value.id
      ensures kind != Human ==> id == -1
      ensures this.member == member && this.kind == kind
      ensures squareType == None
    {
      id := if kind == Human then member.value.id else -1;
      this.member := member;
      this.kind := kind;
      squareType := None;
    }

    /** Gives the player its mark; only X and O are accepted. */
    method SetSquareType(t: SquareType) returns (r: Outcome)
      modifies this
      ensures t == Empty ==> r == Fail(InvalidSquareType) && squareType == old(squareType)
      ensures t != Empty ==> r == Pass && squareType == Some(t)
    {
      if t != X && t != O {
        return Fail(InvalidSquareType);
      }
      squareType := Some(t);
      return Pass;
    }
  }
}
