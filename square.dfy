/**
 * A single cell of the board: empty, or holding the mark of one player.
 */
module Squares {
  import opened Errors

  /** The content of a square. */
  datatype SquareType = Empty | X | O

  class Square {
    /** The square's type (`type` in the source; `type` is a Dafny keyword). */
    var kind: SquareType

    /** A fresh square is empty. */
    constructor ()
      ensures kind == Empty
    {
      kind := Empty;
    }

    predicate IsEmpty()
      reads this
    {
      kind == Empty
    }

    /**
     * Sets the mark of an empty square. A square that already holds a mark
     * is never changed again, and only X or O can be written.
     */
    method SetType(t: SquareType) returns (r: Outcome)
      modifies this
      ensures old(kind) != Empty ==> r == Fail(SquareNotEmpty) && kind == old(kind)
      ensures old(kind) == Empty && t == Empty ==> r == Fail(InvalidSquareType) && kind == Empty
      ensures old(kind) == Empty && t != Empty ==> r == Pass && kind == t
      ensures r == Pass <==> old(kind) == Empty && t != Empty
    {
      if !IsEmpty() {
        return Fail(SquareNotEmpty);
      }
      if t != O && t != X {
        return Fail(InvalidSquareType);
      }
      kind := t;
      return Pass;
    }
  }

  /** A square written once rejects every later write and keeps its mark. */
  method WriteOnce(t: SquareType, u: SquareType) returns (first: Outcome, second: Outcome, kept: SquareType)
    requires t != Empty
    ensures first == Pass && second == Fail(SquareNotEmpty) && kept == t
  {
    var s := new Square();
    first := s.SetType(t);
    second := s.SetType(u);
    kept := s.kind;
  }
}
