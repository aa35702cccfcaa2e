/**
 * The 3x3 board. Its abstract value is a Grid: the nine square types in
 * row-major order, the square at column x and row y sitting at position
 * y * 3 + x.
 */
module Boards {
  import opened Errors
  import opened Squares

  /** A linear position on the board. */
  type Position = p: int | 0 <= p < 9

  /** The nine square types, row-major. */
  type Grid = g: seq<SquareType> | |g| == 9
    witness [Empty, Empty, Empty, Empty, Empty, Empty, Empty, Empty, Empty]

  const EmptyGrid: Grid := [Empty, Empty, Empty, Empty, Empty, Empty, Empty, Empty, Empty]

  /** The linear position of column x, row y. */
  function Pos(x: int, y: int): int
  {
    y * 3 + x
  }

  /** Position p is the square at column p % 3, row p / 3. */
  lemma PosOfPosition(p: Position)
    ensures 0 <= p % 3 < 3 && 0 <= p / 3 < 3 && Pos(p % 3, p / 3) == p
  {
  }

  /** The empty positions below n, in ascending order. */
  function FreeBelow(g: Grid, n: nat): seq<Position>
    requires n <= 9
  {
    if n == 0 then []
    else FreeBelow(g, n - 1) + (if g[n - 1] == Empty then [n - 1] else [])
  }

  /** The empty positions of the board, in ascending order. */
  function Free(g: Grid): seq<Position>
  {
    FreeBelow(g, 9)
  }

  ghost predicate StrictlyAscending(s: seq<int>)
  {
    forall i, j :: 0 <= i < j < |s| ==> s[i] < s[j]
  }

  lemma {:induction false} FreeBelowSpec(g: Grid, n: nat)
    requires n <= 9
    ensures forall p :: p in FreeBelow(g, n) <==> 0 <= p < n && g[p] == Empty
    ensures StrictlyAscending(FreeBelow(g, n))
    ensures |FreeBelow(g, n)| <= n
  {
    if n > 0 {
      FreeBelowSpec(g, n - 1);
      var s := FreeBelow(g, n - 1);
      forall i | 0 <= i < |s|
        ensures s[i] < n - 1
      {
        assert s[i] in FreeBelow(g, n - 1);
      }
    }
  }

  /**
   * The free list holds exactly the empty positions, each once, strictly
   * ascending.
   */
  lemma FreeSpec(g: Grid)
    ensures forall p :: p in Free(g) <==> 0 <= p < 9 && g[p] == Empty
    ensures StrictlyAscending(Free(g))
  {
    FreeBelowSpec(g, 9);
  }

  /** On an empty board every position is free. */
  lemma FreeOfEmptyGrid()
    ensures Free(EmptyGrid) == [0, 1, 2, 3, 4, 5, 6, 7, 8]
  {
  }

  lemma {:induction false} FreeBelowAfterPlace(g: Grid, p: Position, t: SquareType, n: nat)
    requires g[p] == Empty && t != Empty && n <= 9
    ensures forall q :: q in FreeBelow(g[p := t], n) <==> q in FreeBelow(g, n) && q != p
    ensures |FreeBelow(g[p := t], n)| == |FreeBelow(g, n)| - (if p < n then 1 else 0)
  {
    FreeBelowSpec(g, n);
    FreeBelowSpec(g[p := t], n);
    if n > 0 {
      FreeBelowAfterPlace(g, p, t, n - 1);
    }
  }

  /**
   * Writing a mark on an empty square removes exactly that position from
   * the free list, which becomes one shorter.
   */
  lemma FreeAfterPlace(g: Grid, p: Position, t: SquareType)
    requires g[p] == Empty && t != Empty
    ensures forall q :: q in Free(g[p := t]) <==> q in Free(g) && q != p
    ensures |Free(g[p := t])| == |Free(g)| - 1
  {
    FreeBelowAfterPlace(g, p, t, 9);
  }

  /** Placing a mark on a free position shrinks the free list. */
  lemma FreeShrinks(g: Grid, p: Position, t: SquareType)
    requires p in Free(g) && t != Empty
    ensures |Free(g[p := t])| < |Free(g)|
  {
    FreeSpec(g);
    FreeAfterPlace(g, p, t);
  }

  class Board {
    /** The side of the board. */
    const size: int := 3
    /** The squares, indexed as squares[y, x]. */
    const squares: array2<Square>
    /** The square types, row-major. */
    ghost var cells: Grid
    ghost var Repr: set<object>

    ghost predicate Valid()
      reads this, Repr
    {
      && this in Repr && squares in Repr
      && squares.Length0 == size && squares.Length1 == size
      && (forall y, x :: 0 <= y < size && 0 <= x < size ==>
            squares[y, x] in Repr && squares[y, x].kind == cells[Pos(x, y)])
      && (forall y, x, y', x' ::
            0 <= y < size && 0 <= x < size && 0 <= y' < size && 0 <= x' < size && squares[y, x] == squares[y', x'] ==>
            y == y' && x == x')
    }

    /** A new board has nine distinct empty squares. */
    constructor ()
      ensures Valid() && fresh(Repr)
      ensures cells == EmptyGrid
    {
      // An array2 needs an initial element; this placeholder is replaced in
      // all nine cells below and is never reachable from the board again.
      var first := new Square();
      var a: array2<Square> := new Square[size, size]((y, x) => first);
      squares := a;
      new;
      cells := EmptyGrid;
      Repr := {this, a, first};
      for y := 0 to size
        invariant this in Repr && a in Repr && fresh(Repr) && cells == EmptyGrid
        invariant forall y', x' :: 0 <= y' < size && 0 <= x' < size ==> a[y', x'] in Repr && a[y', x'].kind == Empty
        invariant forall y1, x1, y2, x2 ::
          0 <= y1 < y && 0 <= x1 < size && 0 <= y2 < size && 0 <= x2 < size && a[y1, x1] == a[y2, x2] ==>
          y1 == y2 && x1 == x2
      {
        for x := 0 to size
          invariant this in Repr && a in Repr && fresh(Repr) && cells == EmptyGrid
          invariant forall y', x' :: 0 <= y' < size && 0 <= x' < size ==> a[y', x'] in Repr && a[y', x'].kind == Empty
          invariant forall y1, x1, y2, x2 ::
            (0 <= y1 < y || (y1 == y && 0 <= x1 < x)) && 0 <= x1 < size && 0 <= y2 < size && 0 <= x2 < size && a[y1, x1] == a[y2, x2] ==>
            y1 == y2 && x1 == x2
        {
          var s := new Square();
          a[y, x] := s;
          Repr := Repr + {s};
        }
      }
    }

    /**
     * Writes mark t at column x, row y. Fails, changing nothing, on a
     * coordinate outside the board, on EMPTY, and on an occupied square.
     */
    method SetSquare(x: int, y: int, t: SquareType) returns (r: Outcome)
      requires Valid()
      modifies Repr
      ensures Valid() && Repr == old(Repr)
      ensures !(0 <= x < size) ==> r == Fail(InvalidX)
      ensures 0 <= x < size && !(0 <= y < size) ==> r == Fail(InvalidY)
      ensures 0 <= x < size && 0 <= y < size && t == Empty ==> r == Fail(EmptyAssignment)
      ensures 0 <= x < size && 0 <= y < size && t != Empty && old(cells)[Pos(x, y)] != Empty ==>
                r == Fail(SquareNotEmpty)
      ensures r == Pass <==> 0 <= x < size && 0 <= y < size && t != Empty && old(cells)[Pos(x, y)] == Empty
      ensures r == Pass ==> cells == old(cells)[Pos(x, y) := t]
      ensures r != Pass ==> cells == old(cells)
    {
      if x < 0 || x >= size {
        return Fail(InvalidX);
      }
      if y < 0 || y >= size {
        return Fail(InvalidY);
      }
      if t == Empty {
        return Fail(EmptyAssignment);
      }
      if !squares[y, x].IsEmpty() {
        return Fail(SquareNotEmpty);
      }
      // The source's last check (t neither O nor X) cannot fail here: a
      // SquareType other than EMPTY is X or O.
      r := squares[y, x].SetType(t);
      cells := cells[Pos(x, y) := t];
    }

    /** The square at column x, row y; fails on a coordinate outside the board. */
    method GetSquare(x: int, y: int) returns (r: Result<Square>)
      requires Valid()
      ensures !(0 <= x < size) ==> r == Err(InvalidX)
      ensures 0 <= x < size && !(0 <= y < size) ==> r == Err(InvalidY)
      ensures 0 <= x < size && 0 <= y < size ==>
                r.Ok? && r.value == squares[y, x] && r.value.kind == cells[Pos(x, y)]
    {
      if x < 0 || x >= size {
        return Err(InvalidX);
      }
      if y < 0 || y >= size {
        return Err(InvalidY);
      }
      return Ok(squares[y, x]);
    }

    /** The free positions, ascending, as the specification function Free. */
    method GetFree() returns (free: seq<Position>)
      requires Valid()
      ensures free == Free(cells)
    {
      free := [];
      for y := 0 to size
        invariant free == FreeBelow(cells, Pos(0, y))
      {
        for x := 0 to size
          invariant free == FreeBelow(cells, Pos(x, y))
        {
          if squares[y, x].IsEmpty() {
            free := free + [Pos(x, y)];
          }
        }
      }
    }

    /**
     * A copy with the same square types in every cell, built from fresh
     * squares: nothing it owns belongs to this board, so writing to the copy
     * never changes this board.
     */
    method Copy() returns (c: Board)
      requires Valid()
      ensures c.Valid() && fresh(c.Repr)
      ensures c.cells == cells
    {
      c := new Board();
      for y := 0 to size
        invariant c.Valid() && fresh(c.Repr)
        invariant forall p :: 0 <= p < 9 ==> c.cells[p] == if p < Pos(0, y) then cells[p] else Empty
      {
        for x := 0 to size
          invariant c.Valid() && fresh(c.Repr)
          invariant forall p :: 0 <= p < 9 ==> c.cells[p] == if p < Pos(x, y) then cells[p] else Empty
        {
          c.PutFreshSquare(x, y, squares[y, x].kind);
        }
      }
      assert c.cells == cells;
    }

    /**
     * One step of Copy: a fresh square at column x, row y, holding t when t
     * is a mark.
     */
    method PutFreshSquare(x: int, y: int, t: SquareType)
      requires Valid() && 0 <= x < size && 0 <= y < size
      modifies this, squares
      ensures Valid() && fresh(Repr - old(Repr))
      ensures fresh(squares[y, x])
      ensures cells == old(cells)[Pos(x, y) := t]
    {
      var s := new Square();
      squares[y, x] := s;
      if t != Empty {
        var _ := s.SetType(t);
      }
      cells := cells[Pos(x, y) := t];
      Repr := Repr + {s};
    }
  }
}
