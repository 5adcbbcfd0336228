/** The single pass that places the mines: cells are visited column by
    column (x outer, y inner); a cell drawn as a mine is set to the sentinel
    and each in-bounds cell of its 3x3 window whose value is still above the
    sentinel is incremented. `PassValue` is the value a cell holds just
    before the pass reaches a given cell. */
module Generation {
  import opened Field

  /** True when the pass has already handled (i, j) on reaching (x, y). */
  predicate Visited(x: int, y: int, i: int, j: int)
  {
    i < x || (i == x && j < y)
  }

  /** The mines around (i, j) that the pass has placed on reaching (x, y). */
  function SeenMines(draws: seq<seq<bool>>, width: int, height: int, x: int, y: int, i: int, j: int): set<(int, int)>
    requires Shaped(draws, width, height)
  {
    set p | p in Neighbours(width, height, i, j) && Visited(x, y, p.0, p.1) && draws[p.0][p.1]
  }

  /** The value of (i, j) on reaching (x, y). */
  function PassValue(draws: seq<seq<bool>>, width: int, height: int, x: int, y: int, i: int, j: int): int
    requires Shaped(draws, width, height) && InGrid(width, height, i, j)
  {
    if Visited(x, y, i, j) && draws[i][j] then Mine else |SeenMines(draws, width, height, x, y, i, j)|
  }

  /** Before the pass starts, the field is all zeros. */
  lemma PassStart(draws: seq<seq<bool>>, width: int, height: int, i: int, j: int)
    requires Shaped(draws, width, height) && InGrid(width, height, i, j)
    ensures PassValue(draws, width, height, 0, 0, i, j) == 0
  {
    assert SeenMines(draws, width, height, 0, 0, i, j) == {};
  }

  /** Handling a mine cell (x, y): the cell becomes the sentinel, and every
      neighbour not already a mine gains one. */
  lemma {:induction false} PassMine(draws: seq<seq<bool>>, width: int, height: int, x: int, y: int, i: int, j: int)
    requires Shaped(draws, width, height) && InGrid(width, height, x, y) && InGrid(width, height, i, j)
    requires draws[x][y]
    ensures PassValue(draws, width, height, x, y + 1, i, j) ==
            if (i, j) == (x, y) then Mine
            else if Adjacent(x, y, i, j) && PassValue(draws, width, height, x, y, i, j) != Mine
            then PassValue(draws, width, height, x, y, i, j) + 1
            else PassValue(draws, width, height, x, y, i, j)
  {
    if (i, j) != (x, y) && !(Visited(x, y, i, j) && draws[i][j]) {
      SeenAfterMine(draws, width, height, x, y, i, j);
      RingIsAdjacency(i, j, x, y);
    }
  }

  /** The mines seen around (i, j) grow by (x, y) exactly when (x, y) is a
      mine next to it. */
  lemma SeenAfterMine(draws: seq<seq<bool>>, width: int, height: int, x: int, y: int, i: int, j: int)
    requires Shaped(draws, width, height) && InGrid(width, height, x, y) && InGrid(width, height, i, j)
    requires draws[x][y]
    ensures var before := SeenMines(draws, width, height, x, y, i, j);
            (x, y) !in before &&
            SeenMines(draws, width, height, x, y + 1, i, j) ==
              if (x, y) in Neighbours(width, height, i, j) then before + {(x, y)} else before
  {
  }

  /** Handling a cell that is not a mine changes nothing. */
  lemma PassSafe(draws: seq<seq<bool>>, width: int, height: int, x: int, y: int, i: int, j: int)
    requires Shaped(draws, width, height) && InGrid(width, height, x, y) && InGrid(width, height, i, j)
    requires !draws[x][y]
    ensures PassValue(draws, width, height, x, y + 1, i, j) == PassValue(draws, width, height, x, y, i, j)
  {
    assert SeenMines(draws, width, height, x, y + 1, i, j) == SeenMines(draws, width, height, x, y, i, j);
  }

  /** The end of one column is the start of the next. */
  lemma PassNextColumn(draws: seq<seq<bool>>, width: int, height: int, x: int, i: int, j: int)
    requires Shaped(draws, width, height) && InGrid(width, height, i, j)
    ensures PassValue(draws, width, height, x, height, i, j) == PassValue(draws, width, height, x + 1, 0, i, j)
  {
    assert SeenMines(draws, width, height, x, height, i, j) == SeenMines(draws, width, height, x + 1, 0, i, j);
  }

  /** After the last column every cell holds its exact value: the single
      pass agrees with placing all mines first and counting afterwards. */
  lemma PassEnd(draws: seq<seq<bool>>, width: int, height: int, i: int, j: int)
    requires Shaped(draws, width, height) && InGrid(width, height, i, j)
    ensures PassValue(draws, width, height, width, 0, i, j) == CellValue(draws, width, height, i, j)
  {
    assert SeenMines(draws, width, height, width, 0, i, j) == MinesAround(draws, width, height, i, j);
  }

  /** True when the window loop, now at offset (dx, dy), has passed offset (a, b). */
  predicate WindowDone(dx: int, dy: int, a: int, b: int)
  {
    -1 <= a <= 1 && -1 <= b <= 1 && (a < dx || (a == dx && b < dy))
  }

  /** A value after the window loop has passed it: incremented unless a mine. */
  function Bumped(v: int, passed: bool): int
  {
    if passed && v != Mine then v + 1 else v
  }

  /** The pass handling a cell (x, y) drawn as a mine: the cell becomes the
      sentinel, then each in-bounds cell of its 3x3 window still above the
      sentinel is incremented. */
  method PlaceMine(f: array2<int>, draws: seq<seq<bool>>, width: int, height: int, x: int, y: int)
    requires f.Length0 == width && f.Length1 == height
    requires Shaped(draws, width, height) && InGrid(width, height, x, y) && draws[x][y]
    requires forall i, j :: 0 <= i < width && 0 <= j < height ==> f[i, j] == PassValue(draws, width, height, x, y, i, j)
    modifies f
    ensures forall i, j :: 0 <= i < width && 0 <= j < height ==> f[i, j] == PassValue(draws, width, height, x, y + 1, i, j)
  {
    f[x, y] := Mine;
    for dx := -1 to 2
      invariant forall i, j :: 0 <= i < width && 0 <= j < height ==>
        f[i, j] == if i == x && j == y then Mine else Bumped(old(f[i, j]), WindowDone(dx, -1, i - x, j - y))
    {
      for dy := -1 to 2
        invariant forall i, j :: 0 <= i < width && 0 <= j < height ==>
          f[i, j] == if i == x && j == y then Mine else Bumped(old(f[i, j]), WindowDone(dx, dy, i - x, j - y))
      {
        if x + dx > -1 && x + dx < width && y + dy > -1 && y + dy < height && f[x + dx, y + dy] > -1 {
          f[x + dx, y + dy] := f[x + dx, y + dy] + 1;
        }
      }
    }
    forall i, j | 0 <= i < width && 0 <= j < height
      ensures f[i, j] == PassValue(draws, width, height, x, y + 1, i, j)
    {
      PassMine(draws, width, height, x, y, i, j);
    }
  }
}
