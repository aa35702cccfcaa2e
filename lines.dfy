/**
 * End-of-game detection: the eight lines of the board, the winner as the
 * source's scan finds it, and when a game is over.
 */
module Lines {
  import opened Errors
  import opened Squares
  import opened Boards

  /** Three positions in a straight line. */
  datatype Line = Line(a: Position, b: Position, c: Position)

  /** Row y: squares[y][0], squares[y][1], squares[y][2]. */
  const Rows: seq<Line> := [Line(0, 1, 2), Line(3, 4, 5), Line(6, 7, 8)]
  /** Column x: squares[0][x], squares[1][x], squares[2][x]. */
  const Columns: seq<Line> := [Line(0, 3, 6), Line(1, 4, 7), Line(2, 5, 8)]

  function Row(y: int): Line
    requires 0 <= y < 3
  {
    Rows[y]
  }

  function Column(x: int): Line
    requires 0 <= x < 3
  {
    Columns[x]
  }

  /** squares[0][0], squares[1][1], squares[2][2]. */
  const Diagonal: Line := Line(0, 4, 8)
  /** squares[0][2], squares[1][1], squares[2][0]. */
  const AntiDiagonal: Line := Line(2, 4, 6)

  /** The eight lines, in the order the scan visits them. */
  const AllLines: seq<Line> :=
    [Row(0), Column(0), Row(1), Column(1), Row(2), Column(2), Diagonal, AntiDiagonal]

  /** Three equal marks, none of them EMPTY. */
  predicate Complete(g: Grid, l: Line)
  {
    g[l.a] != Empty && g[l.a] == g[l.b] && g[l.a] == g[l.c]
  }

  /** One test of the scan: a complete line overrides what was found so far. */
  function Check(g: Grid, l: Line, found: Option<SquareType>): Option<SquareType>
  {
    if Complete(g, l) then Some(g[l.a]) else found
  }

  /** What the scan has found after its first i turns (row i, then column i). */
  function ScanBelow(g: Grid, i: nat): (found: Option<SquareType>)
    requires i <= 3
    ensures found.Some? ==> found.value != Empty
  {
    if i == 0 then None
    else Check(g, Column(i - 1), Check(g, Row(i - 1), ScanBelow(g, i - 1)))
  }

  /** The mark of the last complete line in scan order, None when there is none. */
  function Winner(g: Grid): (w: Option<SquareType>)
    ensures w.Some? ==> w.value != Empty
  {
    Check(g, AntiDiagonal, Check(g, Diagonal, ScanBelow(g, 3)))
  }

  /** The game on g is over: no free square, or a winner. */
  predicate Over(g: Grid)
  {
    |Free(g)| == 0 || Winner(g).Some?
  }

  /** Some line of the board holds three equal marks. */
  ghost predicate SomeComplete(g: Grid)
  {
    exists k :: 0 <= k < |AllLines| && Complete(g, AllLines[k])
  }

  lemma LinesInScanOrder()
    ensures AllLines[0] == Row(0) && AllLines[1] == Column(0)
    ensures AllLines[2] == Row(1) && AllLines[3] == Column(1)
    ensures AllLines[4] == Row(2) && AllLines[5] == Column(2)
    ensures AllLines[6] == Diagonal && AllLines[7] == AntiDiagonal
  {
  }

  /**
   * After i turns the scan has found something exactly when one of the
   * first 2 * i lines is complete, and what it found is the mark of one.
   */
  lemma {:induction false} ScanBelowSpec(g: Grid, i: nat)
    requires i <= 3
    ensures ScanBelow(g, i).Some? <==> exists k :: 0 <= k < 2 * i && Complete(g, AllLines[k])
    ensures ScanBelow(g, i).Some? ==>
              exists k :: 0 <= k < 2 * i && Complete(g, AllLines[k]) && g[AllLines[k].a] == ScanBelow(g, i).value
  {
    if i > 0 {
      ScanBelowSpec(g, i - 1);
      LinesInScanOrder();
      var row, column := 2 * i - 2, 2 * i - 1;
      if i == 1 {
        assert AllLines[row] == Row(0) && AllLines[column] == Column(0);
      } else if i == 2 {
        assert AllLines[row] == Row(1) && AllLines[column] == Column(1);
      } else {
        assert AllLines[row] == Row(2) && AllLines[column] == Column(2);
      }
      var before := ScanBelow(g, i - 1);
      var afterRow := Check(g, AllLines[row], before);
      assert ScanBelow(g, i) == Check(g, AllLines[column], afterRow);
      if Complete(g, AllLines[column]) {
        assert ScanBelow(g, i) == Some(g[AllLines[column].a]);
      } else if Complete(g, AllLines[row]) {
        assert ScanBelow(g, i) == Some(g[AllLines[row].a]);
      } else {
        assert ScanBelow(g, i) == before;
        assert forall k :: 0 <= k < 2 * i && Complete(g, AllLines[k]) ==> k < row;
      }
    }
  }

  /**
   * The scan finds a winner exactly when some line is complete, and what it
   * finds is the mark of a complete line.
   */
  lemma WinnerSpec(g: Grid)
    ensures Winner(g).Some? <==> SomeComplete(g)
    ensures Winner(g).Some? ==>
              exists k :: 0 <= k < |AllLines| && Complete(g, AllLines[k]) && g[AllLines[k].a] == Winner(g).value
  {
    ScanBelowSpec(g, 3);
    LinesInScanOrder();
    var rows := ScanBelow(g, 3);
    if Complete(g, AntiDiagonal) {
      assert Winner(g) == Some(g[AllLines[7].a]) && Complete(g, AllLines[7]);
    } else if Complete(g, Diagonal) {
      assert Winner(g) == Some(g[AllLines[6].a]) && Complete(g, AllLines[6]);
    } else {
      assert Winner(g) == rows;
      assert forall k :: 0 <= k < |AllLines| && Complete(g, AllLines[k]) ==> k < 6;
    }
  }

  /** The game is over exactly when the free list is empty or some line is complete. */
  lemma OverSpec(g: Grid)
    ensures Over(g) <==> |Free(g)| == 0 || SomeComplete(g)
  {
    WinnerSpec(g);
  }

  /**
   * When a mark is written on a board with no complete line, any winner of
   * the new board holds that mark.
   */
  lemma NewLineHasMark(g: Grid, p: Position, t: SquareType)
    requires Winner(g).None? && g[p] == Empty
    ensures Winner(g[p := t]).Some? ==> Winner(g[p := t]) == Some(t)
  {
    var h := g[p := t];
    if Winner(h).Some? {
      WinnerSpec(h);
      WinnerSpec(g);
      var k :| 0 <= k < |AllLines| && Complete(h, AllLines[k]) && h[AllLines[k].a] == Winner(h).value;
      var l := AllLines[k];
      assert !Complete(g, l);
      assert p == l.a || p == l.b || p == l.c;
    }
  }

  /** Row 0 filled with X: X wins. */
  lemma TopRowOfX()
    ensures Winner([X, X, X, Empty, Empty, Empty, Empty, Empty, Empty]) == Some(X)
  {
  }

  /** A full board without three in a line is a draw. */
  lemma FullBoardDraw()
    ensures var g: Grid := [X, O, X, X, O, O, O, X, X];
            Winner(g) == None && Over(g)
  {
  }
}
