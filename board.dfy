/** The Board component: owns the 7x6 array of slots, drops stones into it and
    scans it for four in a row. The ghost field grid mirrors the array, and each
    method is proved against the value-level definitions of module Grids. */
module Boards {
  import opened Grids

  class Board {
    /** boardSlots, indexed [column, row], row 0 at the bottom. */
    var slots: array2<Player>
    /** The contents of slots, as a grid value. */
    ghost var grid: Grid

    ghost predicate Valid()
      reads this, slots
    {
      slots.Length0 == Width && slots.Length1 == Height && WellFormed(grid) &&
      forall c, r :: 0 <= c < Width && 0 <= r < Height ==> slots[c, r] == grid[c][r]
    }

    /** A copy of the current contents of the array. */
    function Cells(): (g: Grid)
      requires Valid()
      reads this, slots
      ensures g == grid
    {
      var g := seq(Width, c requires 0 <= c < Width && Valid() reads this, slots =>
        seq(Height, r requires 0 <= c < Width && 0 <= r < Height && Valid() reads this, slots => slots[c, r]));
      SameGrid(g, grid);
      g
    }

    /** The component as the engine creates it: an array whose contents are not yet
        cleared (Initialize does that). */
    constructor ()
      ensures Valid() && fresh(slots)
    {
      var a := new Player[Width, Height];
      slots := a;
      grid := seq(Width, c requires 0 <= c < Width reads a => seq(Height, r requires 0 <= r < Height reads a => a[c, r]));
    }

    /** Initialize: a new array, every slot cleared in a nested loop. */
    method Initialize()
      modifies this
      ensures Valid() && fresh(slots)
      ensures grid == EmptyGrid()
    {
      slots := new Player[Width, Height];
      for i := 0 to Width
        modifies slots
        invariant forall x, y :: 0 <= x < i && 0 <= y < Height ==> slots[x, y] == NoPlayer
      {
        for j := 0 to Height
          modifies slots
          invariant forall x, y :: 0 <= x < i && 0 <= y < Height ==> slots[x, y] == NoPlayer
          invariant forall y :: 0 <= y < j ==> slots[i, y] == NoPlayer
        {
          slots[i, j] := NoPlayer;
        }
      }
      grid := EmptyGrid();
    }

    /** GetFreeRowInColumn: the lowest empty row of the column, or -1 when it is full. */
    method GetFreeRowInColumn(column: int) returns (row: int)
      requires Valid() && 0 <= column < Width
      ensures row == FreeRow(grid, column)
      ensures -1 <= row < Height
      ensures row != -1 ==>
        slots[column, row] == NoPlayer && forall y :: 0 <= y < row ==> slots[column, y] != NoPlayer
      ensures row == -1 ==> forall y :: 0 <= y < Height ==> slots[column, y] != NoPlayer
    {
      row := 0;
      while row < Height
        invariant 0 <= row <= Height
        invariant forall y :: 0 <= y < row ==> slots[column, y] != NoPlayer
      {
        if slots[column, row] == NoPlayer {
          return;
        }
        row := row + 1;
      }
      row := -1;
    }

    /** HasSlotFreeRows: the column still has an empty slot. */
    method HasSlotFreeRows(column: int) returns (free: bool)
      requires Valid() && 0 <= column < Width
      ensures free <==> FreeRow(grid, column) != -1
      ensures free <==> exists y :: 0 <= y < Height && slots[column, y] == NoPlayer
    {
      var row := GetFreeRowInColumn(column);
      free := row != -1;
    }

    /** DropStone: put the player's stone in the lowest empty slot of the column, or
        report why nothing was written. */
    method DropStone(player: Player, column: int) returns (status: DropStatus)
      requires Valid()
      modifies this, slots
      ensures Valid() && slots == old(slots)
      ensures (grid, status) == Drop(old(grid), player, column)
    {
      if column < 0 || column > Width {
        return ColumnOutOfRange;
      }
      if column == Width {
        // GetFreeRowInColumn would read slots[Width, 0], which raises.
        return IndexOutOfRange;
      }
      var row := GetFreeRowInColumn(column);
      if row == -1 {
        return ColumnFull;
      }
      if player == NoPlayer {
        return ImpossiblePlayer;
      }
      slots[column, row] := player;
      grid := Place(grid, column, row, player);
      status := Dropped(row);
    }

    /** CheckConnectFour: scan every slot for a run starting there; true at the first hit. */
    method CheckConnectFour(player: Player) returns (found: bool)
      requires Valid()
      ensures found <==> ConnectFour(grid, player)
      ensures player == NoPlayer ==> !found
    {
      var g := Cells();
      for i := 0 to Width
        invariant forall x, y :: 0 <= x < i && 0 <= y < Height ==> !ScanHit(grid, player, x, y)
      {
        for j := 0 to Height
          invariant forall x, y :: 0 <= x < i && 0 <= y < Height ==> !ScanHit(grid, player, x, y)
          invariant forall y :: 0 <= y < j ==> !ScanHit(grid, player, i, y)
        {
          if player == NoPlayer {
            continue;
          }
          if CheckConnectedFourRow(g, i, j, player)
            || CheckConnectedFourColumn(g, i, j, player)
            || CheckConnectedFourDiagonal(g, i, j, player)
          {
            ScanHitMeansConnectFour(g, player, i, j);
            return true;
          }
        }
      }
      ScanHitIffConnectFour(grid, player);
      return false;
    }
  }

  /** Two well-formed grids that agree on every slot are equal. */
  lemma SameGrid(g: Grid, h: Grid)
    requires WellFormed(g) && WellFormed(h)
    requires forall c, r :: 0 <= c < Width && 0 <= r < Height ==> g[c][r] == h[c][r]
    ensures g == h
  {
    forall c | 0 <= c < Width ensures g[c] == h[c] {
      assert forall r :: 0 <= r < Height ==> g[c][r] == h[c][r];
    }
  }
}
