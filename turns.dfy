/** The GameController's rules as values: the key-to-column mapping, the game state
    (grid, player to move, stones used, game over) and one Update step over the keys
    pressed in a frame. The GameController class in module Controllers runs the same
    step over a Board object and is proved against Step. */
module Turns {
  import opened Grids

  /** maxStones: a full board. */
  const MaxStones := 42

  /** The keys the controller polls: R restarts, Alpha1..Alpha7 choose a column. */
  datatype KeyCode = R | Alpha1 | Alpha2 | Alpha3 | Alpha4 | Alpha5 | Alpha6 | Alpha7 | OtherKey

  /** The key that selects column k. */
  function DigitKey(k: int): KeyCode
    requires 0 <= k < Width
  {
    [Alpha1, Alpha2, Alpha3, Alpha4, Alpha5, Alpha6, Alpha7][k]
  }

  /** GetSelectedSlot: keys 1..7 select columns 0..6, checked in that order; -1 when
      none of them is pressed. */
  function GetSelectedSlot(pressed: set<KeyCode>): (slot: int)
    ensures -1 <= slot < Width
    ensures slot == -1 ==> forall k :: 0 <= k < Width ==> DigitKey(k) !in pressed
    ensures slot != -1 ==> DigitKey(slot) in pressed && forall k :: 0 <= k < slot ==> DigitKey(k) !in pressed
  {
    if Alpha1 in pressed then 0
    else if Alpha2 in pressed then 1
    else if Alpha3 in pressed then 2
    else if Alpha4 in pressed then 3
    else if Alpha5 in pressed then 4
    else if Alpha6 in pressed then 5
    else if Alpha7 in pressed then 6
    else -1
  }

  /** SwitchPlayer's effect on currentPlayer: red and yellow swap, NONE stays. */
  function Opponent(p: Player): (q: Player)
    ensures q == NoPlayer <==> p == NoPlayer
    ensures p != NoPlayer ==> q != p
  {
    match p
    case Red => Yellow
    case Yellow => Red
    case NoPlayer => NoPlayer
  }

  /** What the controller shows the players: the turn text, the transient "slot is not
      free" text, and the result text of SetWinner (NoPlayer means a draw). */
  datatype Notice = TurnShown(player: Player) | SlotNotFree(slot: int) | GameOver(winner: Player)

  /** The controller's fields together with the board's grid. */
  datatype GameState = GameState(grid: Grid, current: Player, used: int, done: bool)

  /** InitializeGame's state. */
  function InitialState(): (s: GameState)
    ensures WellFormed(s.grid) && Stones(s.grid) == s.used == 0
    ensures s.current == Red && !s.done
  {
    EmptyColumnsHoldNoStones(EmptyGrid());
    GameState(EmptyGrid(), Red, 0, false)
  }

  /** One call of Update with the given keys pressed in the frame. */
  function Step(s: GameState, pressed: set<KeyCode>): (r: (GameState, seq<Notice>))
    requires WellFormed(s.grid)
    ensures WellFormed(r.0.grid) && |r.1| <= 2
    ensures R !in pressed ==> r.0.used == s.used || r.0.used == s.used + 1
    ensures R !in pressed && s.done ==> r.0 == s && r.1 == []
  {
    if R in pressed then (InitialState(), [TurnShown(Red)])
    else if s.done then (s, [])
    else
      var (s1, n1) := DrawCheck(s);
      SelectColumn(s1, n1, GetSelectedSlot(pressed))
  }

  /** The draw test at the start of a running frame: with every stone used the game
      ends as a draw (SetWinner(NONE)), and the frame goes on. */
  function DrawCheck(s: GameState): (r: (GameState, seq<Notice>))
    ensures r.0.grid == s.grid && r.0.current == s.current && r.0.used == s.used
    ensures r.0.done <==> s.done || s.used >= MaxStones
    ensures r.1 == [] <==> s.used < MaxStones
    ensures s.used >= MaxStones ==> r.1 == [GameOver(NoPlayer)]
  {
    if s.used >= MaxStones then (s.(done := true), [GameOver(NoPlayer)]) else (s, [])
  }

  /** The rest of a running frame, for the selected slot (-1: none) and the notices
      shown so far. */
  function SelectColumn(s: GameState, shown: seq<Notice>, slot: int): (r: (GameState, seq<Notice>))
    requires WellFormed(s.grid) && -1 <= slot < Width
    ensures WellFormed(r.0.grid) && (s.done ==> r.0.done)
    ensures |r.1| == |shown| + (if slot == -1 then 0 else 1) && r.1[..|shown|] == shown
    ensures r.0.used == s.used || r.0.used == s.used + 1
    ensures r.0.grid != s.grid ==> r.0.used == s.used + 1
  {
    if slot == -1 then (s, shown)
    else if FreeRow(s.grid, slot) == -1 then (s, shown + [SlotNotFree(slot)])
    else
      var s2 := s.(grid := Drop(s.grid, s.current, slot).0, used := s.used + 1);
      if ConnectFour(s2.grid, s2.current) then (s2.(done := true), shown + [GameOver(s2.current)])
      else (s2.(current := Opponent(s2.current)), shown + [TurnShown(Opponent(s2.current))])
  }

  /** SelectColumn when the stone it drops completes a four. */
  lemma SelectColumnWins(s: GameState, shown: seq<Notice>, slot: int)
    requires WellFormed(s.grid) && 0 <= slot < Width && FreeRow(s.grid, slot) != -1
    requires ConnectFour(Drop(s.grid, s.current, slot).0, s.current)
    ensures var moved := s.(grid := Drop(s.grid, s.current, slot).0, used := s.used + 1);
      SelectColumn(s, shown, slot) == (moved.(done := true), shown + [GameOver(s.current)])
  {
  }

  /** SelectColumn when the stone it drops completes no four. */
  lemma SelectColumnSwitches(s: GameState, shown: seq<Notice>, slot: int)
    requires WellFormed(s.grid) && 0 <= slot < Width && FreeRow(s.grid, slot) != -1
    requires !ConnectFour(Drop(s.grid, s.current, slot).0, s.current)
    ensures var moved := s.(grid := Drop(s.grid, s.current, slot).0, used := s.used + 1);
      SelectColumn(s, shown, slot) == (moved.(current := Opponent(s.current)), shown + [TurnShown(Opponent(s.current))])
  {
  }

  /** The invariant of every state Update reaches: stones obey gravity, a real player
      moves next, and usedStones counts the stones on the board. */
  predicate Inv(s: GameState) {
    WellFormed(s.grid) && Gravity(s.grid) && s.current != NoPlayer && s.used == Stones(s.grid)
  }

  lemma {:induction false} EmptyColumnsHoldNoStones(g: Grid)
    requires forall c, r :: 0 <= c < |g| && 0 <= r < |g[c]| ==> g[c][r] == NoPlayer
    ensures Stones(g) == 0
  {
    if g != [] {
      EmptyColumnHoldsNoStones(g[0]);
      EmptyColumnsHoldNoStones(g[1..]);
    }
  }

  lemma {:induction false} EmptyColumnHoldsNoStones(col: seq<Player>)
    requires forall r :: 0 <= r < |col| ==> col[r] == NoPlayer
    ensures ColumnStones(col) == 0
  {
    if col != [] {
      EmptyColumnHoldsNoStones(col[1..]);
    }
  }

  /** The state after a reset satisfies the invariant. */
  lemma InitialStateIsValid()
    ensures Inv(InitialState())
  {
    EmptyColumnsHoldNoStones(EmptyGrid());
  }

  /** Pressing R resets the game from any state, before anything else is looked at. */
  lemma ResetFromAnyState(s: GameState, pressed: set<KeyCode>)
    requires WellFormed(s.grid) && R in pressed
    ensures Step(s, pressed) == (GameState(EmptyGrid(), Red, 0, false), [TurnShown(Red)])
    ensures Inv(Step(s, pressed).0)
  {
    InitialStateIsValid();
  }

  /** Once the game is over, Update without R changes nothing and shows nothing. */
  lemma GameOverIgnoresInput(s: GameState, pressed: set<KeyCode>)
    requires WellFormed(s.grid) && s.done && R !in pressed
    ensures Step(s, pressed) == (s, [])
  {
  }

  /** usedStones never exceeds a full board. */
  lemma InvBoundsStones(s: GameState)
    requires Inv(s)
    ensures 0 <= s.used <= MaxStones
  {
    FullGridHasNoFreeRow(s.grid);
  }

  /** Every Update keeps the invariant. */
  lemma StepPreservesInv(s: GameState, pressed: set<KeyCode>)
    requires Inv(s)
    ensures Inv(Step(s, pressed).0)
  {
    if R in pressed {
      InitialStateIsValid();
    } else if !s.done {
      var slot := GetSelectedSlot(pressed);
      if slot != -1 && FreeRow(s.grid, slot) != -1 {
        DropPreservesGravity(s.grid, s.current, slot);
        DropAddsOneStone(s.grid, s.current, slot);
      }
    }
  }

  /** Selecting a full column while stones remain changes no state and only shows the
      "not free" text. */
  lemma FullColumnChangesNothing(s: GameState, pressed: set<KeyCode>)
    requires WellFormed(s.grid) && !s.done && R !in pressed && s.used < MaxStones
    requires GetSelectedSlot(pressed) != -1 && FreeRow(s.grid, GetSelectedSlot(pressed)) == -1
    ensures Step(s, pressed) == (s, [SlotNotFree(GetSelectedSlot(pressed))])
  {
    var n: seq<Notice> := [];
    assert n + [SlotNotFree(GetSelectedSlot(pressed))] == [SlotNotFree(GetSelectedSlot(pressed))];
  }

  /** Selecting a column with room drops the current player's stone in its lowest free
      slot and counts it; a four ends the game with the mover as winner and no switch,
      otherwise the turn passes to the other player. */
  lemma DropStep(s: GameState, pressed: set<KeyCode>)
    requires Inv(s) && !s.done && R !in pressed && s.used < MaxStones
    requires GetSelectedSlot(pressed) != -1 && FreeRow(s.grid, GetSelectedSlot(pressed)) != -1
    ensures var c := GetSelectedSlot(pressed);
      var (t, n) := Step(s, pressed);
      WellFormed(t.grid) &&
      t.grid == Place(s.grid, c, FreeRow(s.grid, c), s.current) &&
      t.used == s.used + 1 && t.used == Stones(t.grid) &&
      (ConnectFour(t.grid, s.current) ==> t.done && t.current == s.current && n == [GameOver(s.current)]) &&
      (!ConnectFour(t.grid, s.current) ==>
        !t.done && t.current == Opponent(s.current) && t.current != s.current && n == [TurnShown(t.current)])
  {
    DropAddsOneStone(s.grid, s.current, GetSelectedSlot(pressed));
  }

  /** Once all 42 stones are used and nobody has won, the next Update without R ends the
      game as a draw; with every column full, a selected column only shows "not free". */
  lemma FullBoardIsDraw(s: GameState, pressed: set<KeyCode>)
    requires Inv(s) && !s.done && R !in pressed && s.used >= MaxStones
    ensures var (t, n) := Step(s, pressed);
      t == s.(done := true) && |n| >= 1 && n[0] == GameOver(NoPlayer) &&
      n[1..] == (if GetSelectedSlot(pressed) == -1 then [] else [SlotNotFree(GetSelectedSlot(pressed))])
  {
    FullGridHasNoFreeRow(s.grid);
  }

  /** The 42nd stone: a four made with it wins at once and no draw is shown; without a
      four the game goes on one more Update, which then declares the draw. */
  lemma LastStoneWinBeatsDraw(s: GameState, pressed: set<KeyCode>, next: set<KeyCode>)
    requires Inv(s) && !s.done && R !in pressed && R !in next && s.used == MaxStones - 1
    requires GetSelectedSlot(pressed) != -1 && FreeRow(s.grid, GetSelectedSlot(pressed)) != -1
    ensures var (t, n) := Step(s, pressed);
      t.used == MaxStones &&
      (ConnectFour(t.grid, s.current) ==> t.done && n == [GameOver(s.current)]) &&
      (!ConnectFour(t.grid, s.current) ==> !t.done && Step(t, next).0.done && Step(t, next).1[0] == GameOver(NoPlayer))
  {
  }
}
