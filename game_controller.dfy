/** The GameController component: holds whose turn it is, how many stones have been
    used and whether the game is over, and drives the Board once per frame. Its
    Update is proved to perform exactly one Step of module Turns, so the lemmas
    proved there about Step hold of every frame. */
module Controllers {
  import opened Grids
  import opened Boards
  import opened Turns

  class GameController {
    var board: Board
    var currentPlayer: Player
    var usedStones: int
    var gameDone: bool

    /** The fields and the board's grid as one value. */
    ghost function State(): GameState
      requires board.Valid()
      reads this, board, board.slots
    {
      GameState(board.grid, currentPlayer, usedStones, gameDone)
    }

    ghost predicate Valid()
      reads this, board, board.slots
    {
      board.Valid() && Inv(State())
    }

    /** Start: set the game up on the given board. */
    constructor (b: Board)
      modifies b
      ensures board == b && Valid()
      ensures State() == InitialState()
    {
      board := b;
      new;
      var _ := InitializeGame();
    }

    /** InitializeGame: clear the board, red to move, no stones used, game running. */
    method InitializeGame() returns (notice: Notice)
      modifies this, board
      ensures board == old(board) && fresh(board.slots)
      ensures Valid() && State() == InitialState()
      ensures notice == TurnShown(Red)
    {
      board.Initialize();
      currentPlayer := Red;
      gameDone := false;
      usedStones := 0;
      assert State() == InitialState();
      InitialStateIsValid();
      notice := TurnShown(currentPlayer);
    }

    /** SwitchPlayer: red and yellow swap; NONE is left as it is. */
    method SwitchPlayer() returns (notice: Notice)
      modifies this
      ensures currentPlayer == Opponent(old(currentPlayer))
      ensures board == old(board) && usedStones == old(usedStones) && gameDone == old(gameDone)
      ensures notice == TurnShown(currentPlayer)
    {
      match currentPlayer {
        case Red => currentPlayer := Yellow;
        case Yellow => currentPlayer := Red;
        case NoPlayer =>
      }
      notice := TurnShown(currentPlayer);
    }

    /** SetWinner: the game is over; NoPlayer announces a draw. */
    method SetWinner(player: Player) returns (notice: Notice)
      modifies this
      ensures gameDone
      ensures board == old(board) && currentPlayer == old(currentPlayer) && usedStones == old(usedStones)
      ensures notice == GameOver(player)
    {
      notice := GameOver(player);
      gameDone := true;
    }

    /** Update: one frame with the given keys pressed. */
    method Update(pressed: set<KeyCode>) returns (notices: seq<Notice>)
      requires Valid()
      modifies this, board, board.slots
      ensures board == old(board) && Valid()
      ensures (State(), notices) == Step(old(State()), pressed)
    {
      ghost var before := State();
      if R in pressed {
        var n := InitializeGame();
        return [n];
      }
      if gameDone {
        return [];
      }
      notices := [];
      if usedStones >= MaxStones {
        var n := SetWinner(NoPlayer);
        notices := [n];
      }
      ghost var afterDraw, shown := State(), notices;
      assert (afterDraw, shown) == DrawCheck(before);
      var slot := GetSelectedSlot(pressed);
      if slot != -1 {
        var free := board.HasSlotFreeRows(slot);
        if free {
          var _ := board.DropStone(currentPlayer, slot);
          usedStones := usedStones + 1;
          ghost var moved := State();
          var won := board.CheckConnectFour(currentPlayer);
          if won {
            SelectColumnWins(afterDraw, shown, slot);
            var n := SetWinner(currentPlayer);
            notices := notices + [n];
            assert State() == moved.(done := true);
            StepPreservesInv(before, pressed);
            return;
          }
          SelectColumnSwitches(afterDraw, shown, slot);
          var n := SwitchPlayer();
          notices := notices + [n];
          assert State() == moved.(current := Opponent(moved.current));
        } else {
          notices := notices + [SlotNotFree(slot)];
        }
      }
      StepPreservesInv(before, pressed);
    }
  }
}
