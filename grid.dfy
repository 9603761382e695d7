/** The Connect Four grid as a value: 7 columns of 6 slots, row 0 at the bottom.
    Everything the board decides (where a stone lands, whether four stones line up)
    is defined here on values; the Board class in module Boards runs the same rules
    over its 2D array and is proved against these definitions. */
module Grids {

  const Width := 7
  const Height := 6

  /** PlayerEnum: NONE marks an empty slot (and, for the controller, "no winner"). */
  datatype Player = NoPlayer | Red | Yellow

  /** A grid is a sequence of columns; g[c][r] is the slot in column c, row r. */
  type Grid = seq<seq<Player>>

  predicate WellFormed(g: Grid) {
    |g| == Width && forall c :: 0 <= c < Width ==> |g[c]| == Height
  }

  /** The grid right after Initialize: every slot empty. */
  function EmptyGrid(): (g: Grid)
    ensures WellFormed(g)
    ensures forall c, r :: 0 <= c < Width && 0 <= r < Height ==> g[c][r] == NoPlayer
  {
    seq(Width, _ => seq(Height, _ => NoPlayer))
  }

  /** Stones only stack from the bottom: every slot below an occupied slot is occupied. */
  predicate Gravity(g: Grid)
    requires WellFormed(g)
  {
    forall c, r, below :: 0 <= c < Width && 0 <= below < r < Height && g[c][r] != NoPlayer ==> g[c][below] != NoPlayer
  }

  // ---------------------------------------------------------------------------
  // Free rows and dropping a stone
  // ---------------------------------------------------------------------------

  /** The lowest row at or above `r` whose slot is empty, or -1 when there is none. */
  function FreeRowFrom(col: seq<Player>, r: nat): (f: int)
    requires r <= |col|
    ensures f == -1 || r <= f < |col|
    ensures f == -1 <==> forall y :: r <= y < |col| ==> col[y] != NoPlayer
    ensures f != -1 ==> col[f] == NoPlayer && forall y :: r <= y < f ==> col[y] != NoPlayer
    decreases |col| - r
  {
    if r == |col| then -1
    else if col[r] == NoPlayer then r
    else FreeRowFrom(col, r + 1)
  }

  /** The row a stone dropped into column c lands in, or -1 when the column is full. */
  function FreeRow(g: Grid, c: int): (f: int)
    requires WellFormed(g) && 0 <= c < Width
  {
    FreeRowFrom(g[c], 0)
  }

  /** The grid with slot (c, r) set to p. */
  function Place(g: Grid, c: int, r: int, p: Player): Grid
    requires WellFormed(g) && 0 <= c < Width && 0 <= r < Height
  {
    g[c := g[c][r := p]]
  }

  /** What DropStone reports. Dropped is the success case; the other four leave the
      grid as it was: the three logged errors, and the IndexOutOfRangeException raised
      when the range guard lets column == Width through. */
  datatype DropStatus =
    | Dropped(row: int)
    | ColumnOutOfRange
    | IndexOutOfRange
    | ColumnFull
    | ImpossiblePlayer

  /** DropStone on a value: the new grid and the status. */
  function Drop(g: Grid, p: Player, c: int): (r: (Grid, DropStatus))
    requires WellFormed(g)
    ensures WellFormed(r.0)
    ensures r.1.Dropped? ==> 0 <= c < Width && 0 <= r.1.row < Height && p != NoPlayer
  {
    if c < 0 || c > Width then (g, ColumnOutOfRange)
    else if c == Width then (g, IndexOutOfRange)
    else
      var r := FreeRow(g, c);
      if r == -1 then (g, ColumnFull)
      else if p == NoPlayer then (g, ImpossiblePlayer)
      else (Place(g, c, r, p), Dropped(r))
  }

  /** A successful drop writes exactly the lowest free slot of the column and no other. */
  lemma DropWritesLowestFreeSlot(g: Grid, p: Player, c: int)
    requires WellFormed(g) && 0 <= c < Width && p != NoPlayer && FreeRow(g, c) != -1
    ensures var (h, st) := Drop(g, p, c);
      WellFormed(h) && st.Dropped? && 0 <= st.row < Height &&
      g[c][st.row] == NoPlayer &&
      (forall y :: 0 <= y < st.row ==> g[c][y] != NoPlayer) &&
      h[c][st.row] == p &&
      (forall x, y :: 0 <= x < Width && 0 <= y < Height && (x, y) != (c, st.row) ==> h[x][y] == g[x][y])
  {
  }

  /** Every failing drop leaves the grid unchanged, and fails for exactly the reasons
      the source checks, in the source's order. */
  lemma DropFailuresLeaveGrid(g: Grid, p: Player, c: int)
    requires WellFormed(g)
    ensures var (h, st) := Drop(g, p, c);
      (!st.Dropped? <==> h == g) &&
      ((c < 0 || c > Width) <==> st == ColumnOutOfRange) &&
      (c == Width <==> st == IndexOutOfRange) &&
      (0 <= c < Width && FreeRow(g, c) == -1 <==> st == ColumnFull) &&
      (0 <= c < Width && FreeRow(g, c) != -1 && p == NoPlayer <==> st == ImpossiblePlayer)
  {
  }

  /** Dropping a stone keeps the stones stacked from the bottom. */
  lemma DropPreservesGravity(g: Grid, p: Player, c: int)
    requires WellFormed(g) && Gravity(g)
    ensures WellFormed(Drop(g, p, c).0) && Gravity(Drop(g, p, c).0)
  {
  }

  // ---------------------------------------------------------------------------
  // Counting stones
  // ---------------------------------------------------------------------------

  /** Number of occupied slots in one column. */
  function ColumnStones(col: seq<Player>): (n: nat)
    ensures n <= |col|
  {
    if col == [] then 0 else (if col[0] != NoPlayer then 1 else 0) + ColumnStones(col[1..])
  }

  /** Number of occupied slots in a sequence of columns. */
  function Stones(g: Grid): nat {
    if g == [] then 0 else ColumnStones(g[0]) + Stones(g[1..])
  }

  /** Writing a stone into an empty slot of a column adds one stone. */
  lemma {:induction false} ColumnStonesAddOne(col: seq<Player>, r: int, p: Player)
    requires 0 <= r < |col| && col[r] == NoPlayer && p != NoPlayer
    ensures ColumnStones(col[r := p]) == ColumnStones(col) + 1
  {
    if r > 0 {
      assert col[r := p][1..] == col[1..][r - 1 := p];
      ColumnStonesAddOne(col[1..], r - 1, p);
    } else {
      assert col[r := p][1..] == col[1..];
    }
  }

  /** Replacing one column changes the total by the difference of the column counts. */
  lemma {:induction false} StonesReplaceColumn(g: Grid, c: int, col: seq<Player>)
    requires 0 <= c < |g|
    ensures Stones(g[c := col]) + ColumnStones(g[c]) == Stones(g) + ColumnStones(col)
  {
    if c > 0 {
      assert g[c := col][1..] == g[1..][c - 1 := col];
      StonesReplaceColumn(g[1..], c - 1, col);
    } else {
      assert g[c := col][1..] == g[1..];
    }
  }

  /** A successful drop adds exactly one stone to the grid. */
  lemma DropAddsOneStone(g: Grid, p: Player, c: int)
    requires WellFormed(g)
    ensures Stones(Drop(g, p, c).0) == Stones(g) + (if Drop(g, p, c).1.Dropped? then 1 else 0)
  {
    var (h, st) := Drop(g, p, c);
    if st.Dropped? {
      ColumnStonesAddOne(g[c], st.row, p);
      StonesReplaceColumn(g, c, g[c][st.row := p]);
    }
  }

  /** A column holds at most one stone per slot, and is full when it holds that many. */
  lemma {:induction false} ColumnStonesFull(col: seq<Player>, y: int)
    requires ColumnStones(col) == |col| && 0 <= y < |col|
    ensures col[y] != NoPlayer
  {
    if col[0] != NoPlayer && y > 0 {
      ColumnStonesFull(col[1..], y - 1);
    }
  }

  /** Columns of Height slots hold at most Height stones each, and are all full when
      they hold that many. */
  lemma {:induction false} StonesBound(g: Grid)
    requires forall c :: 0 <= c < |g| ==> |g[c]| == Height
    ensures Stones(g) <= |g| * Height
    ensures Stones(g) == |g| * Height ==>
      forall c, r :: 0 <= c < |g| && 0 <= r < Height ==> g[c][r] != NoPlayer
  {
    if g != [] {
      StonesBound(g[1..]);
      if Stones(g) == |g| * Height {
        forall c, r | 0 <= c < |g| && 0 <= r < Height ensures g[c][r] != NoPlayer {
          if c == 0 {
            ColumnStonesFull(g[0], r);
          } else {
            assert g[c] == g[1..][c - 1];
          }
        }
      }
    }
  }

  /** A grid holds at most Width * Height = 42 stones; with 42 every column is full. */
  lemma FullGridHasNoFreeRow(g: Grid)
    requires WellFormed(g)
    ensures Stones(g) <= Width * Height
    ensures Stones(g) == Width * Height ==> forall c :: 0 <= c < Width ==> FreeRow(g, c) == -1
  {
    StonesBound(g);
  }

  // ---------------------------------------------------------------------------
  // Four in a row, as CheckConnectFour decides it
  // ---------------------------------------------------------------------------

  /** Reading boardSlots[x, y]: the slot, or the IndexOutOfRangeException C# raises. */
  datatype Read = OutOfRange | Slot(p: Player)

  function At(g: Grid, x: int, y: int): (r: Read)
    requires WellFormed(g)
    ensures r == OutOfRange <==> !(0 <= x < Width && 0 <= y < Height)
  {
    if 0 <= x < Width && 0 <= y < Height then Slot(g[x][y]) else OutOfRange
  }

  /** How a C# chain `slots[x, y] == p && slots[x+dx, y+dy] == p && ...` of `left`
      reads ends: evaluated left to right, stopping at the first false comparison,
      and raising at the first read outside the array. */
  datatype Eval = Holds | Fails | Raises

  function Chain(g: Grid, x: int, y: int, dx: int, dy: int, left: nat, p: Player): (r: Eval)
    requires WellFormed(g)
    ensures left > 0 && r != Raises ==> 0 <= x < Width && 0 <= y < Height
    ensures left > 0 && r == Holds ==> Occupies(g, x, y, p)
    decreases left
  {
    if left == 0 then Holds
    else match At(g, x, y)
      case OutOfRange => Raises
      case Slot(q) => if q == p then Chain(g, x + dx, y + dy, dx, dy, left - 1, p) else Fails
  }

  /** Slot (x, y) is inside the grid and holds p. */
  predicate Occupies(g: Grid, x: int, y: int, p: Player)
    requires WellFormed(g)
  {
    0 <= x < Width && 0 <= y < Height && g[x][y] == p
  }

  /** Four slots from (x, y) in direction (dx, dy) all lie inside the grid and hold p. */
  predicate Run(g: Grid, x: int, y: int, dx: int, dy: int, p: Player)
    requires WellFormed(g)
  {
    Occupies(g, x, y, p) && Occupies(g, x + dx, y + dy, p) &&
    Occupies(g, x + 2 * dx, y + 2 * dy, p) && Occupies(g, x + 3 * dx, y + 3 * dy, p)
  }

  /** A chain of four reads holds exactly when the four slots form an in-bounds run:
      a read that would raise counts as no match. */
  lemma ChainHoldsIffRun(g: Grid, x: int, y: int, dx: int, dy: int, p: Player)
    requires WellFormed(g)
    ensures Chain(g, x, y, dx, dy, 4, p) == Holds <==> Run(g, x, y, dx, dy, p)
  {
  }

  /** CheckConnectedFourRow: four p stones going right from (i, j). */
  function CheckConnectedFourRow(g: Grid, i: int, j: int, p: Player): (r: bool)
    requires WellFormed(g)
    ensures r <==> Run(g, i, j, 1, 0, p)
  {
    ChainHoldsIffRun(g, i, j, 1, 0, p);
    Chain(g, i, j, 1, 0, 4, p) == Holds
  }

  /** CheckConnectedFourColumn: four p stones going up from (i, j). */
  function CheckConnectedFourColumn(g: Grid, i: int, j: int, p: Player): (r: bool)
    requires WellFormed(g)
    ensures r <==> Run(g, i, j, 0, 1, p)
  {
    ChainHoldsIffRun(g, i, j, 0, 1, p);
    Chain(g, i, j, 0, 1, 4, p) == Holds
  }

  /** CheckConnectedFourDiagonal: the (+1,+1) run from (i, j), then its mirror (-1,-1)
      -- both on the same rising line. Both tests sit in one try block, so a read that
      raises during the first test ends the method before the mirror is tried. */
  function CheckConnectedFourDiagonal(g: Grid, i: int, j: int, p: Player): (r: bool)
    requires WellFormed(g)
    ensures Run(g, i, j, 1, 1, p) ==> r
    ensures r ==> Run(g, i, j, 1, 1, p) || Run(g, i, j, -1, -1, p)
  {
    match Chain(g, i, j, 1, 1, 4, p)
    case Raises => false
    case Holds => true
    case Fails => Chain(g, i, j, -1, -1, 4, p) == Holds
  }

  /** What CheckConnectFour's scan tests at cell (i, j). */
  function ScanHit(g: Grid, p: Player, i: int, j: int): (hit: bool)
    requires WellFormed(g)
    ensures hit ==> p != NoPlayer
    ensures p != NoPlayer && FourFrom(g, p, i, j) ==> hit
  {
    p != NoPlayer &&
    (CheckConnectedFourRow(g, i, j, p) || CheckConnectedFourColumn(g, i, j, p) ||
     CheckConnectedFourDiagonal(g, i, j, p))
  }

  /** Four p stones start at (i, j) going right, up, or up-right. */
  predicate FourFrom(g: Grid, p: Player, i: int, j: int)
    requires WellFormed(g)
  {
    Run(g, i, j, 1, 0, p) || Run(g, i, j, 0, 1, p) || Run(g, i, j, 1, 1, p)
  }

  /** The win rule the source implements: p is a real player and some slot of the grid
      anchors four p stones going right, up, or up-right. Falling diagonals are not
      part of it. */
  predicate ConnectFour(g: Grid, p: Player)
    requires WellFormed(g)
  {
    p != NoPlayer && exists i, j :: 0 <= i < Width && 0 <= j < Height && FourFrom(g, p, i, j)
  }

  /** The mirror test adds nothing: a (-1,-1) run from (i, j) is the (+1,+1) run from
      its lower-left end, which is itself inside the grid. */
  lemma MirrorRunIsRisingRun(g: Grid, p: Player, i: int, j: int)
    requires WellFormed(g) && Run(g, i, j, -1, -1, p)
    ensures 0 <= i - 3 < Width && 0 <= j - 3 < Height && Run(g, i - 3, j - 3, 1, 1, p)
  {
  }

  /** The scan finds a hit at some cell exactly when the grid has a four in one of the
      three directions; so a NoPlayer request never matches. */
  lemma ScanHitIffConnectFour(g: Grid, p: Player)
    requires WellFormed(g)
    ensures (exists i, j :: 0 <= i < Width && 0 <= j < Height && ScanHit(g, p, i, j)) <==> ConnectFour(g, p)
  {
    if i, j :| 0 <= i < Width && 0 <= j < Height && ScanHit(g, p, i, j) {
      ScanHitMeansConnectFour(g, p, i, j);
    }
    if ConnectFour(g, p) {
      var i, j :| 0 <= i < Width && 0 <= j < Height && FourFrom(g, p, i, j);
      FourFromIsScanHit(g, p, i, j);
    }
  }

  /** A hit of the scan at one cell is a four somewhere in the grid. */
  lemma ScanHitMeansConnectFour(g: Grid, p: Player, i: int, j: int)
    requires WellFormed(g) && ScanHit(g, p, i, j)
    ensures ConnectFour(g, p)
  {
    if FourFrom(g, p, i, j) {
      assert 0 <= i < Width && 0 <= j < Height;
    } else {
      MirrorRunIsRisingRun(g, p, i, j);
      assert FourFrom(g, p, i - 3, j - 3);
    }
  }

  /** A four anchored at (i, j) is seen by the scan at (i, j). */
  lemma FourFromIsScanHit(g: Grid, p: Player, i: int, j: int)
    requires WellFormed(g) && p != NoPlayer && FourFrom(g, p, i, j)
    ensures ScanHit(g, p, i, j)
  {
  }

  // ---------------------------------------------------------------------------
  // The falling diagonal the source does not check
  // ---------------------------------------------------------------------------

  /** Four in a row along any of the four lines, falling diagonal (+1,-1) included. */
  predicate AnyLineFour(g: Grid, p: Player)
    requires WellFormed(g)
  {
    p != NoPlayer &&
    exists i, j :: 0 <= i < Width && 0 <= j < Height && (FourFrom(g, p, i, j) || Run(g, i, j, 1, -1, p))
  }

  /** Every four the source detects is a four on some line. */
  lemma ConnectFourIsAnyLineFour(g: Grid, p: Player)
    requires WellFormed(g) && ConnectFour(g, p)
    ensures AnyLineFour(g, p)
  {
  }

  /** The grid after red and yellow, red first, play columns 3, 2, 2, 1, 4, 1, 1, 0, 5,
      0, 4, 0, 0: seven red stones, four of them on the falling diagonal (0,3), (1,2),
      (2,1), (3,0), plus (4,0), (4,1), (5,0); six yellow stones beneath the diagonal. */
  function FallingDiagonalGrid(): (g: Grid)
    ensures WellFormed(g)
  {
    seq(Width, x => seq(Height, y =>
      if (x <= 3 && y == 3 - x) || (y == 0 && 3 <= x <= 5) || (x == 4 && y == 1) then Red
      else if x <= 2 && y < 3 - x then Yellow
      else NoPlayer))
  }

  /** Red has four in a falling line on that grid, stones obey gravity, and yet the
      source's win rule sees a four for neither player. */
  lemma FallingDiagonalIsMissed()
    ensures var g := FallingDiagonalGrid();
      Gravity(g) && Run(g, 0, 3, 1, -1, Red) && AnyLineFour(g, Red) &&
      !ConnectFour(g, Red) && !ConnectFour(g, Yellow)
  {
    var g := FallingDiagonalGrid();
    assert Run(g, 0, 3, 1, -1, Red);
    forall i, j | 0 <= i < Width && 0 <= j < Height
      ensures !FourFrom(g, Red, i, j) && !FourFrom(g, Yellow, i, j)
    {
      assert Occupies(g, i, j, Red) ==> (i <= 3 && i + j == 3) || (j == 0 && 3 <= i <= 5) || (i == 4 && j == 1);
      assert Occupies(g, i, j, Yellow) ==> i <= 2 && j < 3 - i;
    }
  }
}
