/**
 * Turns of a room as values: the two seats, the move each bot policy picks,
 * and the cascade of moves one human play sets off (the human's move, then
 * the bots' replies until the game ends or a human is to play).
 */
module Turns {
  import opened Errors
  import opened Squares
  import opened Boards
  import opened Lines
  import opened Search
  import opened Players

  /** One player of a room as far as the rules are concerned: its behaviour and its mark. */
  datatype Seat = Seat(kind: PlayerType, mark: SquareType)

  /** The two seats of a room, the creator first. */
  type Seats = s: seq<Seat> | |s| == 2 witness [Seat(Human, X), Seat(Human, O)]

  /** The creator is human, and the two seats hold X and O between them. */
  predicate ValidSeats(seats: Seats)
  {
    && seats[0].kind == Human
    && seats[0].mark != Empty && seats[1].mark != Empty
    && seats[0].mark != seats[1].mark
  }

  /**
   * pos is a move the bot policy `kind` may pick on g, playing `me` against
   * `opp`: the lowest free position, any free position, or the one the
   * alpha-beta search returns. A human has no policy.
   */
  predicate BotMove(kind: PlayerType, g: Grid, me: SquareType, opp: SquareType, pos: int)
    requires me != Empty && opp != Empty
  {
    match kind
    case Human => false
    case EasyBot => |Free(g)| > 0 && pos == Free(g)[0]
    case RandomBot => pos in Free(g)
    case CheatBot => pos == Value(g, me, opp, 0, -Infinity, Infinity, true)
  }

  /** On a game that is not over, every bot picks a free position. */
  lemma BotMoveIsFree(kind: PlayerType, g: Grid, me: SquareType, opp: SquareType, pos: int)
    requires me != Empty && opp != Empty && !Over(g)
    requires BotMove(kind, g, me, opp, pos)
    ensures pos in Free(g)
  {
    if kind == CheatBot {
      RootMoveIsFree(g, me, opp, -Infinity, Infinity);
    }
  }

  /** The easy and the cheating bot leave no choice: they pick one position each. */
  lemma BotMoveUnique(kind: PlayerType, g: Grid, me: SquareType, opp: SquareType, p: int, q: int)
    requires me != Empty && opp != Empty && kind != RandomBot
    requires BotMove(kind, g, me, opp, p) && BotMove(kind, g, me, opp, q)
    ensures p == q
  {
  }

  /**
   * The seat `cur` plays moves[0] on g; then, unless the game is over, the
   * turn passes to the other seat, and while that seat is a bot it plays
   * the next move of the list. The cascade ends on g' with `cur'` the
   * current seat: the last mover when the game is over, else a human.
   */
  ghost predicate Cascade(seats: Seats, g: Grid, cur: nat, moves: seq<int>, g': Grid, cur': nat)
    requires ValidSeats(seats) && cur < 2
    decreases |moves|
  {
    && |moves| > 0
    && moves[0] in Free(g)
    && var h := g[moves[0] := seats[cur].mark];
       var next := 1 - cur;
       if Over(h) then |moves| == 1 && g' == h && cur' == cur
       else if seats[next].kind == Human then |moves| == 1 && g' == h && cur' == next
       else
         && |moves| > 1
         && BotMove(seats[next].kind, h, seats[next].mark, seats[cur].mark, moves[1])
         && Cascade(seats, h, next, moves[1..], g', cur')
  }

  /** A cascade stops only when the game is over or a human is to play. */
  lemma {:induction false} CascadeStops(seats: Seats, g: Grid, cur: nat, moves: seq<int>, g': Grid, cur': nat)
    requires ValidSeats(seats) && cur < 2
    requires Cascade(seats, g, cur, moves, g', cur')
    ensures cur' < 2
    ensures Over(g') || seats[cur'].kind == Human
    decreases |moves|
  {
    var h := g[moves[0] := seats[cur].mark];
    if !Over(h) && seats[1 - cur].kind != Human {
      CascadeStops(seats, h, 1 - cur, moves[1..], g', cur');
    }
  }

  /** Every move of a cascade fills one free square. */
  lemma {:induction false} CascadeFills(seats: Seats, g: Grid, cur: nat, moves: seq<int>, g': Grid, cur': nat)
    requires ValidSeats(seats) && cur < 2
    requires Cascade(seats, g, cur, moves, g', cur')
    ensures |Free(g')| == |Free(g)| - |moves|
    ensures forall p :: 0 <= p < 9 && g[p] != Empty ==> g'[p] == g[p]
    decreases |moves|
  {
    var h := g[moves[0] := seats[cur].mark];
    FreeSpec(g);
    FreeAfterPlace(g, moves[0], seats[cur].mark);
    if !Over(h) && seats[1 - cur].kind != Human {
      CascadeFills(seats, h, 1 - cur, moves[1..], g', cur');
    }
  }

  /**
   * Without a random bot in the room, the human's move decides the whole
   * cascade: its moves, the final board and the final current seat.
   */
  lemma {:induction false} CascadeDeterministic(seats: Seats, g: Grid, cur: nat,
                                                m1: seq<int>, g1: Grid, c1: nat,
                                                m2: seq<int>, g2: Grid, c2: nat)
    requires ValidSeats(seats) && cur < 2
    requires seats[1].kind != RandomBot
    requires Cascade(seats, g, cur, m1, g1, c1) && Cascade(seats, g, cur, m2, g2, c2)
    requires m1[0] == m2[0]
    ensures m1 == m2 && g1 == g2 && c1 == c2
    decreases |m1|
  {
    var h := g[m1[0] := seats[cur].mark];
    var next := 1 - cur;
    if !Over(h) && seats[next].kind != Human {
      BotMoveUnique(seats[next].kind, h, seats[next].mark, seats[cur].mark, m1[1], m2[1]);
      CascadeDeterministic(seats, h, next, m1[1..], g1, c1, m2[1..], g2, c2);
      assert m1 == [m1[0]] + m1[1..];
      assert m2 == [m2[0]] + m2[1..];
    }
  }

  /**
   * Starting from a board nobody has won, a cascade that ends in a win ends
   * with the winner's seat current: the winning line carries the mark of
   * the seat that moved last.
   */
  lemma {:induction false} LastMoverWins(seats: Seats, g: Grid, cur: nat, moves: seq<int>, g': Grid, cur': nat)
    requires ValidSeats(seats) && cur < 2
    requires Winner(g).None?
    requires Cascade(seats, g, cur, moves, g', cur')
    ensures Winner(g').Some? ==> cur' < 2 && Winner(g') == Some(seats[cur'].mark)
    decreases |moves|
  {
    FreeSpec(g);
    var h := g[moves[0] := seats[cur].mark];
    NewLineHasMark(g, moves[0], seats[cur].mark);
    if !Over(h) && seats[1 - cur].kind != Human {
      LastMoverWins(seats, h, 1 - cur, moves[1..], g', cur');
    }
  }

  /**
   * Against the easy bot, a creator's move that leaves the game open is
   * answered by the lowest free square; when that leaves the game open too,
   * the turn is back with the creator.
   */
  lemma EasyBotTwoPly(seats: Seats, g: Grid, p: int, h: Grid, q: int, h': Grid)
    requires ValidSeats(seats) && seats[1].kind == EasyBot
    requires p in Free(g) && h == g[p := seats[0].mark] && !Over(h)
    requires |Free(h)| > 0 && Free(h)[0] == q
    requires h' == h[q := seats[1].mark] && !Over(h')
    ensures Cascade(seats, g, 0, [p, q], h', 0)
  {
    CascadeHandOver(seats, h, 1, q);
    CascadeStep(seats, g, 0, p, [q], h', 0);
    assert [p] + [q] == [p, q];
  }

  /** A board with no complete line and an empty square p is not over. */
  lemma OpenBoard(g: Grid, p: Position)
    requires Winner(g).None? && g[p] == Empty
    ensures !Over(g)
  {
    FreeSpec(g);
    assert p in Free(g);
  }

  /** The first free position is the lowest empty square: the easy bot's move. */
  lemma LowestFree(g: Grid, p: Position)
    requires g[p] == Empty
    requires forall q :: 0 <= q < p ==> g[q] != Empty
    ensures |Free(g)| > 0 && Free(g)[0] == p
  {
    FreeSpec(g);
    var f := Free(g);
    assert p in f;
    var k :| 0 <= k < |f| && f[k] == p;
    assert f[0] <= f[k];
    assert f[0] in f;
  }

  /** A move that leaves the game open and hands the turn to a bot, followed by the bot's cascade. */
  lemma CascadeStep(seats: Seats, g: Grid, cur: nat, p: int, rest: seq<int>, g': Grid, cur': nat)
    requires ValidSeats(seats) && cur < 2 && p in Free(g)
    requires !Over(g[p := seats[cur].mark]) && seats[1 - cur].kind != Human
    requires |rest| > 0
    requires BotMove(seats[1 - cur].kind, g[p := seats[cur].mark], seats[1 - cur].mark, seats[cur].mark, rest[0])
    requires Cascade(seats, g[p := seats[cur].mark], 1 - cur, rest, g', cur')
    ensures Cascade(seats, g, cur, [p] + rest, g', cur')
  {
    assert ([p] + rest)[1..] == rest;
  }

  /** A move that leaves the game open and hands the turn to a human ends the cascade. */
  lemma CascadeHandOver(seats: Seats, g: Grid, cur: nat, p: int)
    requires ValidSeats(seats) && cur < 2 && p in Free(g)
    requires !Over(g[p := seats[cur].mark]) && seats[1 - cur].kind == Human
    ensures Cascade(seats, g, cur, [p], g[p := seats[cur].mark], 1 - cur)
  {
  }

  /** A move that ends the game ends the cascade, its mover still current. */
  lemma CascadeEnd(seats: Seats, g: Grid, cur: nat, p: int)
    requires ValidSeats(seats) && cur < 2 && p in Free(g)
    requires Over(g[p := seats[cur].mark])
    ensures Cascade(seats, g, cur, [p], g[p := seats[cur].mark], cur)
  {
  }

  // ---------------------------------------------------------------------
  // A game against the easy bot, ply by ply.
  // ---------------------------------------------------------------------

  /** The creator, human with X, against the easy bot with O. */
  const EasySeats: Seats := [Seat(Human, X), Seat(EasyBot, O)]

  /** The boards after each ply of the game: X 4, O 0, X 2, O 1, X 6. */
  const Ply1: Grid := [Empty, Empty, Empty, Empty, X, Empty, Empty, Empty, Empty]
  const Ply2: Grid := [O, Empty, Empty, Empty, X, Empty, Empty, Empty, Empty]
  const Ply3: Grid := [O, Empty, X, Empty, X, Empty, Empty, Empty, Empty]
  const Ply4: Grid := [O, O, X, Empty, X, Empty, Empty, Empty, Empty]
  const Ply5: Grid := [O, O, X, Empty, X, Empty, X, Empty, Empty]

  /**
   * Against the easy bot, after the creator (X) opens in the centre, the bot
   * (O) answers in square 0 and the turn comes back to the creator.
   */
  lemma EasyBotAnswersInSquareZero(moves: seq<int>, g': Grid, cur': nat)
    requires Cascade(EasySeats, EmptyGrid, 0, moves, g', cur')
    requires moves[0] == 4
    ensures moves == [4, 0]
    ensures g' == Ply2 && cur' == 0
  {
    CentreOpening(moves, g', cur');
    EasyBotReply(moves[1..], g', cur');
    assert |moves| == 2 && moves[1] == 0;
  }

  lemma CentreOpening(moves: seq<int>, g': Grid, cur': nat)
    requires Cascade(EasySeats, EmptyGrid, 0, moves, g', cur')
    requires moves[0] == 4
    ensures |moves| > 1 && moves[1] == 0
    ensures Cascade(EasySeats, Ply1, 1, moves[1..], g', cur')
  {
    OpeningBoards();
    OpeningOpen();
  }

  lemma EasyBotReply(moves: seq<int>, g': Grid, cur': nat)
    requires Cascade(EasySeats, Ply1, 1, moves, g', cur')
    requires moves[0] == 0
    ensures moves == [0]
    ensures g' == Ply2 && cur' == 0
  {
    OpeningBoards();
    OpeningOpen();
  }

  /** The creator opens in the centre; the easy bot answers 0. */
  lemma EasyGameOpening()
    ensures Cascade(EasySeats, EmptyGrid, 0, [4, 0], Ply2, 0)
  {
    OpeningBoards();
    OpeningOpen();
    EasyBotTwoPly(EasySeats, EmptyGrid, 4, Ply1, 0, Ply2);
  }

  lemma OpeningBoards()
    ensures 4 in Free(EmptyGrid)
    ensures EmptyGrid[4 := X] == Ply1 && Ply1[0 := O] == Ply2
  {
    FreeOfEmptyGrid();
  }

  lemma OpeningOpen()
    ensures !Over(Ply1) && Free(Ply1)[0] == 0 && !Over(Ply2)
  {
    OpenBoard(Ply1, 0);
    LowestFree(Ply1, 0);
    OpenBoard(Ply2, 1);
  }

  /** The creator plays 2; the easy bot answers 1. */
  lemma EasyGameMiddle()
    ensures Cascade(EasySeats, Ply2, 0, [2, 1], Ply4, 0)
  {
    MiddleBoards();
    MiddleOpen();
    MiddleReply();
    EasyBotTwoPly(EasySeats, Ply2, 2, Ply3, 1, Ply4);
  }

  lemma MiddleBoards()
    ensures Ply2[2 := X] == Ply3 && Ply3[1 := O] == Ply4
  {
  }

  lemma MiddleOpen()
    ensures 2 in Free(Ply2) && !Over(Ply3)
  {
    FreeSpec(Ply2);
    OpenBoard(Ply3, 1);
  }

  lemma MiddleReply()
    ensures Free(Ply3)[0] == 1 && !Over(Ply4)
  {
    LowestFree(Ply3, 1);
    OpenBoard(Ply4, 3);
  }

  /** The creator plays 6 and completes the anti-diagonal. */
  lemma EasyGameWin()
    ensures Cascade(EasySeats, Ply4, 0, [6], Ply5, 0)
    ensures Winner(Ply5) == Some(X)
  {
    WinBoard();
    CascadeEnd(EasySeats, Ply4, 0, 6);
  }

  lemma WinBoard()
    ensures 6 in Free(Ply4) && Ply4[6 := X] == Ply5
    ensures Winner(Ply5) == Some(X)
  {
    WinMove();
    WinLine();
  }

  lemma WinMove()
    ensures 6 in Free(Ply4) && Ply4[6 := X] == Ply5
  {
    assert Free(Ply4) == [3, 5, 6, 7, 8];
  }

  lemma WinLine()
    ensures Winner(Ply5) == Some(X)
  {
  }

  // ---------------------------------------------------------------------
  // Which mark a move places.
  // ---------------------------------------------------------------------

  /**
   * The mark placed by a move as the room writes it: X when the creator's
   * seat is current, O otherwise, whatever marks the seats were given.
   */
  function PlacedMarkAsWritten(cur: nat): SquareType
  {
    if cur == 0 then X else O
  }

  /**
   * Whenever the creator holds X (every room with a bot, where the creator
   * always starts), the mark as written is the current seat's own mark, so
   * the cascade, which places `seats[cur].mark`, agrees with it.
   */
  lemma PlacedMarkAgrees(seats: Seats, cur: nat)
    requires ValidSeats(seats) && seats[0].mark == X && cur < 2
    ensures PlacedMarkAsWritten(cur) == seats[cur].mark
  {
  }

  /**
   * Two humans, the second drawn to start and so given X: the move as
   * written places O for it, not its X. When that O completes a row, the
   * corrected winner comparison credits the creator, who holds O but did not
   * play it; the comparison as written credits the second seat, as it
   * credits every win.
   */
  lemma PlacedMarkAsWrittenCounterexample()
    ensures var seats: Seats := [Seat(Human, O), Seat(Human, X)];
            var g: Grid := [O, O, Empty, X, X, Empty, Empty, Empty, Empty];
            var h := g[2 := PlacedMarkAsWritten(1)];
            && ValidSeats(seats)
            && PlacedMarkAsWritten(1) != seats[1].mark
            && Winner(h) == Some(O)
            && WinnerSeat(seats, Winner(h)) == Some(0)
            && WinnerSeatAsWritten(seats, Winner(h)) == Some(1)
  {
    var g: Grid := [O, O, Empty, X, X, Empty, Empty, Empty, Empty];
    var h: Grid := [O, O, O, X, X, Empty, Empty, Empty, Empty];
    assert g[2 := PlacedMarkAsWritten(1)] == h;
    assert Winner(h) == Some(O);
  }

  // ---------------------------------------------------------------------
  // Which seat wins.
  // ---------------------------------------------------------------------

  /**
   * The winner's seat as the room writes it: it compares the creator's
   * player type with the winning mark. Assuming, as the two enumerations are
   * modelled here, that no player type equals X or O, the comparison never
   * holds and every win goes to the second seat. The seats are never read;
   * the parameter is kept so that the signature mirrors WinnerSeat's.
   */
  function WinnerSeatAsWritten(seats: Seats, w: Option<SquareType>): Option<nat>
  {
    if w.None? then None else Some(1)
  }

  /**
   * A game against the easy bot that the creator (X) wins: the creator plays
   * 4, 2 and 6, the bot answers 0 and 1 (the lowest free squares), and 2, 4, 6
   * completes the anti-diagonal. The corrected comparison credits the
   * creator; the comparison as written credits the bot, which holds O.
   */
  lemma WinnerSeatAsWrittenCounterexample()
    ensures ValidSeats(EasySeats)
    ensures Cascade(EasySeats, EmptyGrid, 0, [4, 0], Ply2, 0)
    ensures Cascade(EasySeats, Ply2, 0, [2, 1], Ply4, 0)
    ensures Cascade(EasySeats, Ply4, 0, [6], Ply5, 0)
    ensures Winner(Ply5) == Some(X) && EasySeats[0].mark == X
    ensures WinnerSeat(EasySeats, Winner(Ply5)) == Some(0)
    ensures WinnerSeatAsWritten(EasySeats, Winner(Ply5)) == Some(1) && EasySeats[1].mark != X
  {
    EasyGameOpening();
    EasyGameMiddle();
    EasyGameWin();
  }

  /** The winner's seat: the seat whose mark is the winning mark; none on a draw. */
  function WinnerSeat(seats: Seats, w: Option<SquareType>): (r: Option<nat>)
    requires ValidSeats(seats)
    requires w.Some? ==> w.value != Empty
    ensures r.None? <==> w.None?
    ensures r.Some? ==> r.value < 2 && seats[r.value].mark == w.value
  {
    if w.None? then None
    else if seats[0].mark == w.value then Some(0)
    else Some(1)
  }

  /** A cascade that wins credits, under the corrected comparison, the seat that moved last. */
  lemma CascadeWinnerIsLastMover(seats: Seats, g: Grid, cur: nat, moves: seq<int>, g': Grid, cur': nat)
    requires ValidSeats(seats) && cur < 2
    requires Winner(g).None?
    requires Cascade(seats, g, cur, moves, g', cur')
    requires Winner(g').Some?
    ensures WinnerSeat(seats, Winner(g')) == Some(cur')
  {
    LastMoverWins(seats, g, cur, moves, g', cur');
  }
}
