/**
 * A room: one board, two players, and whose turn it is. A human's play
 * sets off the bots' replies; the strongest bot searches board copies with
 * alpha-beta minimax.
 */
module Rooms {
  import opened Errors
  import opened Squares
  import opened Boards
  import opened Lines
  import opened Search
  import opened Players
  import opened Turns

  class Room {
    /** The room's board (the getter returns this field). */
    const board: Board
    /** The two players, the creator first (the getter returns this array). */
    const players: array<Player>
    /** The index of the current player. */
    var current: nat
    ghost var Repr: set<object>

    ghost predicate Valid()
      reads this, Repr
    {
      && this in Repr && players in Repr && board in Repr
      && board.Repr <= Repr && this !in board.Repr && players !in board.Repr
      && board.Valid()
      && players.Length == 2
      && players[0] in Repr && players[1] in Repr
      && players[0] !in board.Repr && players[1] !in board.Repr
      && players[0] != players[1]
      && current < 2
      && players[0].kind == Human
      && players[0].squareType.Some? && players[1].squareType.Some?
      && players[0].squareType.value != Empty && players[1].squareType.value != Empty
      && players[0].squareType.value != players[1].squareType.value
    }

    /** The players' behaviours and marks as seats. */
    function Seats(): (s: Seats)
      reads this, Repr
      requires Valid()
      ensures ValidSeats(s)
    {
      [Seat(players[0].kind, players[0].squareType.value), Seat(players[1].kind, players[1].squareType.value)]
    }

    /**
     * A room for the creator and a second player of the given type. When
     * both are human, `coin` (drawn at random) says who starts; against a
     * bot the creator starts. The starter gets X and the other player O.
     */
    constructor (first: Member, second: Option<Member>, secondType: PlayerType, coin: nat)
      requires coin < 2
      requires secondType == Human ==> second.Some?
      ensures Valid() && fresh(Repr)
      ensures board.cells == EmptyGrid
      ensures players[0].member == Some(first) && players[0].kind == Human && players[0].id == first.id
      ensures players[1].member == second && players[1].kind == secondType
      ensures players[1].id == if secondType == Human then second.value.id else -1
      ensures current == if secondType == Human then coin else 0
      ensures players[current].squareType == Some(X)
      ensures players[1 - current].squareType == Some(O)
      ensures secondType != Human ==> Seats()[0].mark == X
    {
      var b := new Board();
      var p0 := new Player(Some(first), Human);
      var p1 := new Player(second, secondType);
      board := b;
      players := new Player[] [p0, p1];
      current := if secondType == Human then coin else 0;
      Repr := {this, players, p0, p1} + b.Repr;
      new;
      var _ := players[current].SetSquareType(X);
      var _ := players[(current + 1) % 2].SetSquareType(O);
    }

    /** The player whose turn it is, holding a mark. */
    function CurrentPlayer(): (p: Player)
      reads this, Repr
      requires Valid()
      ensures p == players[0] || p == players[1]
      ensures p.squareType == Some(Seats()[current].mark)
    {
      players[current]
    }

    /** The other player, holding the other mark. */
    function OpponentPlayer(): (p: Player)
      reads this, Repr
      requires Valid()
      ensures p == players[0] || p == players[1]
      ensures p != CurrentPlayer()
      ensures p.squareType.Some? && p.squareType != CurrentPlayer().squareType
    {
      players[(current + 1) % 2]
    }

    /** The turn passes to the other player. */
    method SwapPlayer()
      requires Valid()
      modifies this
      ensures Valid() && Repr == old(Repr)
      ensures current == 1 - old(current)
      ensures CurrentPlayer() == old(OpponentPlayer())
    {
      current := (current + 1) % players.Length;
    }

    /**
     * The current player plays pos. An out-of-range position or a taken
     * square fails and changes nothing. Otherwise the current player's mark
     * is written at pos; unless that ends the game the turn passes, and
     * while the new current player is a bot it plays its move in turn. The
     * ghost `moves` lists every position played, pos first.
     */
    method Play(pos: int) returns (r: Outcome, ghost moves: seq<int>)
      requires Valid()
      modifies this, board.Repr
      ensures Valid() && Repr == old(Repr)
      ensures !(0 <= pos <= 8) ==> r == Fail(InvalidPosition)
      ensures 0 <= pos <= 8 && pos !in Free(old(board.cells)) ==> r == Fail(PositionNotFree)
      ensures r == Pass <==> pos in Free(old(board.cells))
      ensures r != Pass ==> board.cells == old(board.cells) && current == old(current)
      ensures r == Pass ==> Cascade(old(Seats()), old(board.cells), old(current), moves, board.cells, current) && moves[0] == pos
      ensures r == Pass ==> Over(board.cells) || players[current].kind == Human
      decreases |Free(board.cells)|
    {
      moves := [];
      if pos < 0 || pos > 8 {
        return Fail(InvalidPosition), moves;
      }
      var free := board.GetFree();
      if pos !in free {
        return Fail(PositionNotFree), moves;
      }
      ghost var seats := Seats();
      ghost var g := board.cells;
      ghost var cur := current;
      FreeSpec(g);
      var mark := players[current].squareType.value;
      var _ := board.SetSquare(pos % 3, pos / 3, mark);
      assert board.cells == g[pos := mark];
      FreeShrinks(g, pos, mark);
      var over := IsOver(board);
      moves := [pos];
      if !over {
        SwapPlayer();
        assert Seats() == seats;
        if players[current].kind != Human {
          var q := BotChoice();
          var played, rest := Play(q);
          moves := [pos] + rest;
          assert moves[1..] == rest;
        }
      }
      r := Pass;
      assert Seats() == seats;
    }

    /** The move the current player, a bot, picks by its policy. */
    method BotChoice() returns (q: int)
      requires Valid() && !Over(board.cells) && players[current].kind != Human
      ensures BotMove(players[current].kind, board.cells, Seats()[current].mark, Seats()[1 - current].mark, q)
      ensures q in Free(board.cells)
    {
      var f := board.GetFree();
      var bot := players[current].kind;
      if bot == EasyBot {
        q := f[0];
      } else if bot == RandomBot {
        var i :| 0 <= i < |f|;
        q := f[i];
      } else {
        q := Minimax(board, 0, -Infinity, Infinity, true);
      }
      BotMoveIsFree(bot, board.cells, Seats()[current].mark, Seats()[1 - current].mark, q);
    }

    /**
     * The current player's time ran out: a free position drawn at random is
     * played for it. With no free position the play fails as a position that
     * is not free.
     */
    method PassTurn() returns (r: Outcome, ghost moves: seq<int>)
      requires Valid()
      modifies this, board.Repr
      ensures Valid() && Repr == old(Repr)
      ensures |Free(old(board.cells))| == 0 ==>
                r == Fail(PositionNotFree) && board.cells == old(board.cells) && current == old(current)
      ensures |Free(old(board.cells))| > 0 ==> r == Pass && |moves| > 0 && moves[0] in Free(old(board.cells))
      ensures r == Pass ==> Cascade(old(Seats()), old(board.cells), old(current), moves, board.cells, current)
    {
      var free := board.GetFree();
      if |free| == 0 {
        return Fail(PositionNotFree), [];
      }
      var i :| 0 <= i < |free|;
      r, moves := Play(free[i]);
    }

    /**
     * The winning player once the game is over: the player whose mark holds
     * a complete line, none on a draw. Fails while the game is in progress.
     */
    method GetWinner() returns (r: Result<Option<Player>>)
      requires Valid()
      ensures !Over(board.cells) <==> r == Err(GameInProgress)
      ensures Over(board.cells) && Winner(board.cells).None? ==> r == Ok(None)
      ensures Winner(board.cells).Some? ==>
                && r.Ok? && r.value.Some?
                && (r.value.value == players[0] || r.value.value == players[1])
                && r.value.value.squareType == Winner(board.cells)
      ensures Winner(board.cells).Some? ==>
                r == Ok(Some(players[WinnerSeat(Seats(), Winner(board.cells)).value]))
    {
      var over := IsOver(board);
      if !over {
        return Err(GameInProgress);
      }
      var w := SquareTypeWinner(board);
      if w == None {
        return Ok(None);
      }
      if players[0].squareType == w {
        return Ok(Some(players[0]));
      }
      return Ok(Some(players[1]));
    }

    /** Whether the game on b is over. */
    method IsOver(b: Board) returns (over: bool)
      requires b.Valid()
      ensures over == Over(b.cells)
    {
      var free := b.GetFree();
      var w := SquareTypeWinner(b);
      over := |free| == 0 || w != None;
    }

    /**
     * The mark of a complete line of b, None when there is none; when several
     * lines are complete, the last in scan order.
     */
    method SquareTypeWinner(b: Board) returns (w: Option<SquareType>)
      requires b.Valid()
      ensures w == Winner(b.cells)
    {
      w := None;
      for i := 0 to 3
        invariant w == ScanBelow(b.cells, i)
      {
        // Horizontal, then vertical.
        w := CheckLine(b, Row(i), w);
        w := CheckLine(b, Column(i), w);
      }
      // Diagonal, then anti-diagonal.
      ghost var rows := w;
      w := CheckLine(b, Diagonal, w);
      assert w == Check(b.cells, Diagonal, rows);
      ghost var diagonal := w;
      w := CheckLine(b, AntiDiagonal, w);
      assert w == Check(b.cells, AntiDiagonal, diagonal);
    }

    /**
     * One test of the scan, on line l, each of whose positions p is the
     * square at row p / 3, column p % 3: when the three hold the same mark,
     * that mark; otherwise what was found before.
     */
    method CheckLine(b: Board, l: Line, found: Option<SquareType>) returns (w: Option<SquareType>)
      requires b.Valid()
      ensures w == Check(b.cells, l, found)
    {
      PosOfPosition(l.a);
      PosOfPosition(l.b);
      PosOfPosition(l.c);
      var sq := b.squares;
      var first, second, third := sq[l.a / 3, l.a % 3], sq[l.b / 3, l.b % 3], sq[l.c / 3, l.c % 3];
      assert first.kind == b.cells[Pos(l.a % 3, l.a / 3)];
      assert second.kind == b.cells[Pos(l.b % 3, l.b / 3)];
      assert third.kind == b.cells[Pos(l.c % 3, l.c / 3)];
      w := found;
      if !first.IsEmpty() && first.kind == second.kind && first.kind == third.kind {
        w := Some(first.kind);
      }
    }

    /**
     * Alpha-beta minimax over copies of b, scored for the current player:
     * the search Value. It changes nothing that exists when it starts.
     */
    method Minimax(b: Board, depth: nat, alpha: int, beta: int, isMax: bool) returns (r: int)
      requires Valid() && b.Valid()
      ensures r == Value(b.cells, Seats()[current].mark, Seats()[1 - current].mark, depth, alpha, beta, isMax)
      decreases |Free(b.cells)|, 2
    {
      var me := players[current].squareType.value;
      var over := IsOver(b);
      if over {
        var winner := SquareTypeWinner(b);
        if winner == None {
          r := 0;
        } else if winner == Some(me) {
          r := 10 - depth;
        } else {
          r := -10 + depth;
        }
      } else if isMax {
        var maxEval, bestPos := MaxLoop(b, depth, alpha, beta);
        if depth == 0 {
          r := bestPos;
        } else {
          r := maxEval;
        }
      } else {
        r := MinLoop(b, depth, alpha, beta);
      }
    }

    /**
     * The maximising loop of Minimax: the current player tries each free
     * position, keeping the best score and the first position that reached
     * it, until the window closes.
     */
    method MaxLoop(b: Board, depth: nat, alpha: int, beta: int) returns (maxEval: int, bestPos: int)
      requires Valid() && b.Valid()
      ensures (maxEval, bestPos)
           == MaxScan(b.cells, Seats()[current].mark, Seats()[1 - current].mark, depth, 0, alpha, beta, -Infinity, -1)
      decreases |Free(b.cells)|, 1
    {
      var me := players[current].squareType.value;
      var opp := players[(current + 1) % 2].squareType.value;
      ghost var g := b.cells;
      var free := b.GetFree();
      FreeSpec(g);
      maxEval, bestPos := -Infinity, -1;
      var a := alpha;
      var i := 0;
      while i < |free|
        invariant 0 <= i <= |free|
        invariant MaxScan(g, me, opp, depth, i, a, beta, maxEval, bestPos)
               == MaxScan(g, me, opp, depth, 0, alpha, beta, -Infinity, -1)
      {
        var pos := free[i];
        var e := ChildScore(b, pos, me, depth + 1, a, beta, false);
        if e > maxEval {
          maxEval := e;
          bestPos := pos;
        }
        a := Max(a, e);
        if beta <= a {
          break;
        }
        i := i + 1;
      }
    }

    /**
     * The minimising loop of Minimax: the opponent tries each free position,
     * keeping the lowest score, until the window closes.
     */
    method MinLoop(b: Board, depth: nat, alpha: int, beta: int) returns (minEval: int)
      requires Valid() && b.Valid()
      ensures minEval == MinScan(b.cells, Seats()[current].mark, Seats()[1 - current].mark, depth, 0, alpha, beta, Infinity)
      decreases |Free(b.cells)|, 1
    {
      var me := players[current].squareType.value;
      var opp := players[(current + 1) % 2].squareType.value;
      ghost var g := b.cells;
      var free := b.GetFree();
      FreeSpec(g);
      minEval := Infinity;
      var bt := beta;
      var i := 0;
      while i < |free|
        invariant 0 <= i <= |free|
        invariant MinScan(g, me, opp, depth, i, alpha, bt, minEval)
               == MinScan(g, me, opp, depth, 0, alpha, beta, Infinity)
      {
        var pos := free[i];
        var e := ChildScore(b, pos, opp, depth + 1, alpha, bt, true);
        minEval := Min(e, minEval);
        bt := Min(bt, e);
        if bt <= alpha {
          break;
        }
        i := i + 1;
      }
    }

    /**
     * One step of either loop: the score of the board after `mark` is
     * written at pos, found by searching a copy of b.
     */
    method ChildScore(b: Board, pos: Position, mark: SquareType, depth: nat, alpha: int, beta: int, isMax: bool)
      returns (e: int)
      requires Valid() && b.Valid()
      requires pos in Free(b.cells) && mark != Empty
      ensures e == Value(b.cells[pos := mark], Seats()[current].mark, Seats()[1 - current].mark, depth, alpha, beta, isMax)
      decreases |Free(b.cells)|, 0
    {
      FreeSpec(b.cells);
      var copy := b.Copy();
      var _ := copy.SetSquare(pos % 3, pos / 3, mark);
      assert copy.cells == b.cells[pos := mark];
      FreeShrinks(b.cells, pos, mark);
      e := Minimax(copy, depth, alpha, beta, isMax);
    }
  }

  /**
   * Against the easy bot, the creator starts with X; after the creator plays
   * the centre, the bot answers in the lowest free square, 0, and the turn
   * is the creator's again.
   */
  method EasyBotAnswersCentre(first: Member) returns (room: Room)
    ensures room.Valid()
    ensures room.board.cells == [O, Empty, Empty, Empty, X, Empty, Empty, Empty, Empty]
    ensures room.current == 0
  {
    room := new Room(first, None, EasyBot, 0);
    var seats := room.Seats();
    assert seats == [Seat(Human, X), Seat(EasyBot, O)];
    var r;
    ghost var moves;
    r, moves := room.Play(4);
    EasyBotAnswersInSquareZero(moves, room.board.cells, room.current);
  }
}
