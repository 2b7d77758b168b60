/** The game engine: game states, creation, move application and reset, as
    pure functions over game values, with the invariants they keep. */
module Engine {
  import opened Board

  /** One game as the store holds it. */
  datatype Game = Game(
    gameId: string,
    board: Grid,
    currentPlayer: Mark,
    winner: Option<Mark>,
    isDraw: bool,
    movesCount: int)

  /** The ways an operation can be refused. */
  datatype Error = NotFound | AlreadyFinished | WrongTurn | CellOccupied

  datatype Result<T> = Ok(value: T) | Err(error: Error)

  /** A game with a winner or a draw accepts no further moves. For a
      consistent game this is the case exactly when the board has a winner or
      is full. */
  predicate Terminal(g: Game): (r: bool)
    ensures Consistent(g) ==> (r <==> CalculateWinner(g.board).Some? || IsFull(g.board))
  {
    g.winner.Some? || g.isDraw
  }

  /** The invariant of every game the engine produces: the move count is the
      number of marks on the board, the recorded winner is the board's
      winner, a draw is recorded exactly when there is no winner and the board
      is full, and, while play goes on, the player to move has placed as many
      marks as the opponent or one fewer. */
  ghost predicate Consistent(g: Game) {
    && g.movesCount == Occupied(g.board)
    && g.winner == CalculateWinner(g.board)
    && g.isDraw == (g.winner.None? && IsFull(g.board))
    && (g.winner.None? && !g.isDraw ==>
          var mine, theirs := MarksOf(g.board, g.currentPlayer), MarksOf(g.board, Other(g.currentPlayer));
          mine <= theirs <= mine + 1)
  }

  /** The state a new game starts in: consistent, not over, no marks on the
      board, under the given identifier with the given player to move. */
  function NewGame(id: string, firstPlayer: Mark): (r: Game)
    ensures Consistent(r) && !Terminal(r)
    ensures Occupied(r.board) == 0 && IsFull(r.board) == false
    ensures r.gameId == id && r.currentPlayer == firstPlayer
  {
    EmptyGridFacts();
    Game(id, EmptyGrid, firstPlayer, None, false, 0)
  }

  /** A move by `player` at `pos`: refused when the game is over, then when it
      is not the player's turn, then when the cell is taken; otherwise played.
      It is accepted exactly when none of the refusals applies, and it never
      reports an unknown game. */
  function ApplyMove(g: Game, pos: Position, player: Mark): (r: Result<Game>)
    ensures r.Ok? <==> !Terminal(g) && player == g.currentPlayer && g.board[pos] == Empty
    ensures r.Ok? ==> r.value == Play(g, pos, player)
    ensures r.Err? ==> r.error != NotFound
  {
    if g.winner.Some? || g.isDraw then Err(AlreadyFinished)
    else if player != g.currentPlayer then Err(WrongTurn)
    else if g.board[pos] != Empty then Err(CellOccupied)
    else Ok(Play(g, pos, player))
  }

  /** An accepted move: the mark is written and the move counted, then the
      outcome is decided: a completed line makes a winner, else a full board
      makes a draw, else the turn passes to the other mark. On a game without
      a winner, the recorded winner is then the new board's winner and the
      draw flag says exactly that there is none and the board is full. */
  function Play(g: Game, pos: Position, player: Mark): (r: Game)
    ensures r.board == g.board[pos := Marked(player)]
    ensures r.movesCount == g.movesCount + 1 && r.gameId == g.gameId
    ensures g.winner.None? ==> r.winner == CalculateWinner(r.board)
    ensures g.winner.None? ==> r.isDraw == (r.winner.None? && IsFull(r.board))
    ensures r.currentPlayer == if CalculateWinner(r.board).None? && !IsFull(r.board)
                               then Other(g.currentPlayer) else g.currentPlayer
  {
    var board: Grid := g.board[pos := Marked(player)];
    var played := g.(board := board, movesCount := g.movesCount + 1);
    var winner := CalculateWinner(board);
    if winner.Some? then played.(winner := winner, isDraw := false)
    else if IsFull(board) then played.(isDraw := true)
    else played.(isDraw := false, currentPlayer := Other(g.currentPlayer))
  }

  /** A fresh board with X to move, keeping the game's identifier: whatever
      the prior state, the game a creation with X first would give. */
  function Reset(g: Game): (r: Game)
    ensures r == NewGame(g.gameId, X)
    ensures Consistent(r) && !Terminal(r)
  {
    g.(board := EmptyGrid, currentPlayer := X, winner := None, isDraw := false, movesCount := 0)
  }

  /** A consistent game has between 0 and 9 moves, never both a winner and a
      draw, and a drawn game has all nine cells played. */
  lemma ConsistentBounds(g: Game)
    requires Consistent(g)
    ensures 0 <= g.movesCount <= 9
    ensures !(g.winner.Some? && g.isDraw)
    ensures g.isDraw ==> g.movesCount == 9
  {
    FullIffAllOccupied(g.board);
  }

  /** The three refusals, in the order they are checked, and acceptance
      exactly when none applies. */
  lemma MoveChecksInOrder(g: Game, pos: Position, player: Mark)
    ensures ApplyMove(g, pos, player) == Err(AlreadyFinished) <==> Terminal(g)
    ensures ApplyMove(g, pos, player) == Err(WrongTurn) <==> !Terminal(g) && player != g.currentPlayer
    ensures ApplyMove(g, pos, player) == Err(CellOccupied) <==> !Terminal(g) && player == g.currentPlayer && g.board[pos] != Empty
    ensures ApplyMove(g, pos, player).Ok? <==> !Terminal(g) && player == g.currentPlayer && g.board[pos] == Empty
    ensures ApplyMove(g, pos, player).Err? ==> ApplyMove(g, pos, player).error != NotFound
  {
  }

  /** An accepted move writes the player's mark at `pos`, changes no other
      cell, adds exactly one to the move count and keeps the identifier. */
  lemma MovePlacesOneMark(g: Game, pos: Position, player: Mark)
    requires ApplyMove(g, pos, player).Ok?
    ensures ApplyMove(g, pos, player).value.board[pos] == Marked(player)
    ensures forall i :: 0 <= i < 9 && i != pos ==> ApplyMove(g, pos, player).value.board[i] == g.board[i]
    ensures ApplyMove(g, pos, player).value.movesCount == g.movesCount + 1
    ensures ApplyMove(g, pos, player).value.gameId == g.gameId
  {
  }

  /** After an accepted move exactly one outcome applies: a winner (turn
      kept), a draw (turn kept) or the turn passing to the other mark. */
  lemma MoveOutcome(g: Game, pos: Position, player: Mark)
    requires ApplyMove(g, pos, player).Ok?
    ensures var after := ApplyMove(g, pos, player).value;
      && (CalculateWinner(after.board).Some? ==>
            after.winner == CalculateWinner(after.board) && !after.isDraw
            && after.currentPlayer == g.currentPlayer)
      && (CalculateWinner(after.board).None? && IsFull(after.board) ==>
            after.winner.None? && after.isDraw && after.currentPlayer == g.currentPlayer)
      && (CalculateWinner(after.board).None? && !IsFull(after.board) ==>
            after.winner.None? && !after.isDraw && after.currentPlayer == Other(g.currentPlayer))
      && !(after.winner.Some? && after.isDraw)
  {
  }

  /** Every terminal game refuses every move as already finished. */
  lemma TerminalRefusesEveryMove(g: Game)
    requires Terminal(g)
    ensures forall pos: Position, player: Mark :: ApplyMove(g, pos, player) == Err(AlreadyFinished)
  {
  }

  /** An accepted move keeps a consistent game consistent. */
  lemma MovePreservesConsistent(g: Game, pos: Position, player: Mark)
    ensures Consistent(g) && ApplyMove(g, pos, player).Ok? ==> Consistent(ApplyMove(g, pos, player).value)
  {
    if Consistent(g) && ApplyMove(g, pos, player).Ok? {
      PlaceCounts(g.board, pos, player);
    }
  }

  /** In a consistent game, the only mark a move can make the winner is the
      mover's own. */
  lemma MoveWinnerIsMover(g: Game, pos: Position, player: Mark)
    ensures (Consistent(g) && ApplyMove(g, pos, player).Ok? && ApplyMove(g, pos, player).value.winner.Some?) ==>
              ApplyMove(g, pos, player).value.winner == Some(player)
  {
    if Consistent(g) && ApplyMove(g, pos, player).Ok? {
      var board: Grid := g.board[pos := Marked(player)];
      PlaceOnlyCompletesOwnLines(g.board, pos, player);
      CalculateWinnerWins(board);
      if Wins(board, player) {
        OnlyWinnerIsCalculated(board, player);
      }
    }
  }

  /** Successive move requests on one game, as the service handles them: an
      accepted move replaces the game, a refused one leaves it as it was. */
  function Replay(g: Game, moves: seq<(Position, Mark)>): Game
    decreases |moves|
  {
    if moves == [] then g
    else
      var r := ApplyMove(g, moves[0].0, moves[0].1);
      Replay(if r.Ok? then r.value else g, moves[1..])
  }

  /** Any sequence of move requests keeps a consistent game consistent; in
      particular the move count stays the number of marks on the board and a
      game never has both a winner and a draw. */
  lemma {:induction false} ReplayPreservesConsistent(g: Game, moves: seq<(Position, Mark)>)
    ensures Consistent(g) ==> Consistent(Replay(g, moves))
    decreases |moves|
  {
    if moves != [] && Consistent(g) {
      MovePreservesConsistent(g, moves[0].0, moves[0].1);
      var r := ApplyMove(g, moves[0].0, moves[0].1);
      ReplayPreservesConsistent(if r.Ok? then r.value else g, moves[1..]);
    }
  }

  /** Once a game is finished, no sequence of move requests changes it. */
  lemma {:induction false} ReplayTerminalUnchanged(g: Game, moves: seq<(Position, Mark)>)
    ensures Terminal(g) ==> Replay(g, moves) == g
    decreases |moves|
  {
    if moves != [] && Terminal(g) {
      ReplayTerminalUnchanged(g, moves[1..]);
    }
  }

  /** Every game reached from a new game by move requests is consistent,
      never both won and drawn, and has at most nine moves. */
  lemma ReplayFromNewGame(id: string, firstPlayer: Mark, moves: seq<(Position, Mark)>)
    ensures Consistent(Replay(NewGame(id, firstPlayer), moves))
    ensures var g := Replay(NewGame(id, firstPlayer), moves);
      0 <= g.movesCount <= 9 && !(g.winner.Some? && g.isDraw)
  {
    ReplayPreservesConsistent(NewGame(id, firstPlayer), moves);
    ConsistentBounds(Replay(NewGame(id, firstPlayer), moves));
  }
}
