/** The in-memory game store and the operations the service exposes on it:
    look up, create, move and reset. Each operation reads the stored game,
    works on a copy and writes the copy back under the same key only when it
    succeeds. */
module Store {
  import opened Board
  import opened Engine

  /** Every game in the map sits under its own identifier and is consistent. */
  ghost predicate StoredUnderOwnIds(m: map<string, Game>) {
    forall id | id in m :: m[id].gameId == id && Consistent(m[id])
  }

  /** Storing a consistent game under its own identifier keeps the map so. */
  lemma PutKeepsStored(m: map<string, Game>, id: string, g: Game)
    requires StoredUnderOwnIds(m)
    requires g.gameId == id && Consistent(g)
    ensures StoredUnderOwnIds(m[id := g])
  {
  }

  class GameStore {
    /** Game identifier to stored game state. */
    var games: map<string, Game>

    /** Every stored game sits under its own identifier and is consistent. */
    ghost predicate Valid()
      reads this
    {
      StoredUnderOwnIds(games)
    }

    constructor ()
      ensures Valid() && games == map[]
    {
      games := map[];
    }

    /** Look a game up: its stored state, or NotFound for an unknown id. */
    method Get(id: string) returns (r: Result<Game>)
      ensures r.Ok? <==> id in games
      ensures r.Ok? ==> r.value == games[id]
      ensures r.Err? ==> r.error == NotFound
    {
      if id in games {
        r := Ok(games[id]);
      } else {
        r := Err(NotFound);
      }
    }

    /** Create a game under an identifier not yet in use and store it. */
    method Create(id: string, firstPlayer: Mark) returns (g: Game)
      requires Valid()
      requires id !in games
      modifies this
      ensures Valid()
      ensures g == NewGame(id, firstPlayer)
      ensures g.gameId == id && g.currentPlayer == firstPlayer && g.board == EmptyGrid
      ensures g.winner.None? && !g.isDraw && g.movesCount == 0
      ensures games == old(games)[id := g]
    {
      g := Game(id, EmptyGrid, firstPlayer, None, false, 0);
      assert g == NewGame(id, firstPlayer);
      PutKeepsStored(games, id, g);
      games := games[id := g];
    }

    /** Play `player` at `pos` in game `id`. A refusal leaves the store as it
        was; an accepted move replaces only the entry for `id`. */
    method MakeMove(id: string, pos: Position, player: Mark) returns (r: Result<Game>)
      requires Valid()
      modifies this
      ensures Valid()
      ensures id !in old(games) ==> r == Err(NotFound)
      ensures id in old(games) ==> r == ApplyMove(old(games)[id], pos, player)
      ensures games == if r.Ok? then old(games)[id := r.value] else old(games)
    {
      var found := Get(id);
      if found.Err? {
        return Err(found.error);
      }
      var game := found.value;
      ghost var before := game;

      if game.winner.Some? || game.isDraw {
        return Err(AlreadyFinished);
      }
      if player != game.currentPlayer {
        return Err(WrongTurn);
      }
      if game.board[pos] != Empty {
        return Err(CellOccupied);
      }

      game := game.(board := game.board[pos := Marked(player)]);
      game := game.(movesCount := game.movesCount + 1);

      var winner := CalculateWinner(game.board);
      if winner.Some? {
        game := game.(winner := winner, isDraw := false);
      } else {
        game := game.(isDraw := IsFull(game.board));
        if !game.isDraw {
          game := game.(currentPlayer := if game.currentPlayer == X then O else X);
        }
      }

      assert game == Play(before, pos, player);
      MovePreservesConsistent(before, pos, player);
      PutKeepsStored(games, id, game);
      games := games[id := game];
      r := Ok(game);
    }

    /** Reset game `id` to a fresh board with X to move; NotFound for an
        unknown id, in which case nothing changes. */
    method ResetGame(id: string) returns (r: Result<Game>)
      requires Valid()
      modifies this
      ensures Valid()
      ensures id !in old(games) ==> r == Err(NotFound)
      ensures id in old(games) ==> r == Ok(NewGame(id, X))
      ensures games == if r.Ok? then old(games)[id := r.value] else old(games)
    {
      var found := Get(id);
      if found.Err? {
        return Err(found.error);
      }
      var game := found.value;
      game := game.(board := EmptyGrid);
      game := game.(currentPlayer := X);
      game := game.(winner := None);
      game := game.(isDraw := false);
      game := game.(movesCount := 0);
      assert game == Reset(found.value);
      PutKeepsStored(games, id, game);
      games := games[id := game];
      r := Ok(game);
    }
  }
}
