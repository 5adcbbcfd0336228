/** The board geometry shared by mine generation and flood fill: cells of a
    `width x height` grid indexed `[x, y]`, their up-to-8 neighbours, the
    DELTAS offsets, and the value each cell must hold once the mines are drawn. */
module Field {

  /** The sentinel value of a mine cell. */
  const Mine: int := -1

  /** The eight neighbour offsets, in the order the game visits them
      when it floods out from a blank cell. */
  const Deltas: seq<(int, int)> := [(1, 0), (1, 1), (0, 1), (-1, 1), (-1, 0), (-1, -1), (0, -1), (1, -1)]

  predicate InGrid(width: int, height: int, x: int, y: int)
  {
    0 <= x < width && 0 <= y < height
  }

  /** The cell `c` is on the board. */
  predicate OnBoard(width: int, height: int, c: (int, int))
  {
    InGrid(width, height, c.0, c.1)
  }

  /** The eight cells around (x, y), with no bounds check. */
  function Ring(x: int, y: int): set<(int, int)>
  {
    {(x + 1, y), (x + 1, y + 1), (x, y + 1), (x - 1, y + 1),
     (x - 1, y), (x - 1, y - 1), (x, y - 1), (x + 1, y - 1)}
  }

  /** True when (a, b) is one of the eight cells around (x, y). */
  predicate Adjacent(x: int, y: int, a: int, b: int)
  {
    -1 <= a - x <= 1 && -1 <= b - y <= 1 && (a, b) != (x, y)
  }

  /** The in-bounds neighbours of (x, y). */
  function Neighbours(width: int, height: int, x: int, y: int): set<(int, int)>
  {
    set p | p in Ring(x, y) && OnBoard(width, height, p)
  }

  /** The index in `Deltas` of a non-zero offset of at most one in each direction. */
  function DeltaIndex(dx: int, dy: int): (k: nat)
    requires -1 <= dx <= 1 && -1 <= dy <= 1 && (dx, dy) != (0, 0)
    ensures k < |Deltas| && Deltas[k] == (dx, dy)
  {
    if dx == 1 && dy == 0 then 0
    else if dx == 1 && dy == 1 then 1
    else if dx == 0 && dy == 1 then 2
    else if dx == -1 && dy == 1 then 3
    else if dx == -1 && dy == 0 then 4
    else if dx == -1 && dy == -1 then 5
    else if dx == 0 && dy == -1 then 6
    else 7
  }

  /** Every entry of DELTAS is a non-zero offset of at most one step. */
  lemma DeltasAreSteps(k: int)
    requires 0 <= k < |Deltas|
    ensures -1 <= Deltas[k].0 <= 1 && -1 <= Deltas[k].1 <= 1 && Deltas[k] != (0, 0)
  {
  }

  lemma RingIsAdjacency(x: int, y: int, a: int, b: int)
    ensures (a, b) in Ring(x, y) <==> Adjacent(x, y, a, b)
  {
  }

  lemma {:induction false} NeighboursAtMostEight(width: int, height: int, x: int, y: int)
    ensures |Neighbours(width, height, x, y)| <= 8
  {
    var r := Ring(x, y);
    assert |r| == 8;
    assert Neighbours(width, height, x, y) <= r;
    SubsetCardinality(Neighbours(width, height, x, y), r);
  }

  lemma {:induction false} SubsetCardinality<T>(a: set<T>, b: set<T>)
    requires a <= b
    ensures |a| <= |b|
  {
    if a != {} {
      var e :| e in a;
      SubsetCardinality(a - {e}, b - {e});
    }
  }

  /** The grid of draws covers every cell of the board. */
  predicate Shaped(draws: seq<seq<bool>>, width: int, height: int)
  {
    |draws| == width && forall x :: 0 <= x < width ==> |draws[x]| == height
  }

  /** `c` is on the board and drawn as a mine. */
  predicate IsMine(draws: seq<seq<bool>>, width: int, height: int, c: (int, int))
    requires Shaped(draws, width, height)
  {
    InGrid(width, height, c.0, c.1) && draws[c.0][c.1]
  }

  /** The neighbours of (x, y) that were drawn as mines. */
  function MinesAround(draws: seq<seq<bool>>, width: int, height: int, x: int, y: int): set<(int, int)>
    requires Shaped(draws, width, height)
  {
    set p | p in Neighbours(width, height, x, y) && IsMine(draws, width, height, p)
  }

  /** The value a cell holds once the mines are drawn: the sentinel for a
      mine, otherwise the number of mines among its neighbours. */
  function CellValue(draws: seq<seq<bool>>, width: int, height: int, x: int, y: int): (n: int)
    requires Shaped(draws, width, height) && InGrid(width, height, x, y)
    ensures n == Mine <==> draws[x][y]
    ensures -1 <= n <= 8
  {
    if draws[x][y] then Mine
    else
      NeighboursAtMostEight(width, height, x, y);
      SubsetCardinality(MinesAround(draws, width, height, x, y), Neighbours(width, height, x, y));
      |MinesAround(draws, width, height, x, y)|
  }

  lemma NeighbourSymmetry(width: int, height: int, x: int, y: int, a: int, b: int)
    requires InGrid(width, height, x, y) && InGrid(width, height, a, b)
    ensures (a, b) in Neighbours(width, height, x, y) <==> (x, y) in Neighbours(width, height, a, b)
  {
    RingIsAdjacency(x, y, a, b);
    RingIsAdjacency(a, b, x, y);
  }

  /** A cell showing 0 has no mine among its neighbours, so flooding
      out from it can never step onto a mine. */
  lemma BlankCellHasNoMineNeighbours(draws: seq<seq<bool>>, width: int, height: int, x: int, y: int)
    requires Shaped(draws, width, height) && InGrid(width, height, x, y)
    requires CellValue(draws, width, height, x, y) == 0
    ensures forall p :: p in Neighbours(width, height, x, y) ==> !draws[p.0][p.1]
  {
    assert MinesAround(draws, width, height, x, y) == {};
    forall p | p in Neighbours(width, height, x, y)
      ensures !draws[p.0][p.1]
    {
      assert p !in MinesAround(draws, width, height, x, y);
    }
  }

  /** Stepping from a cell by one entry of DELTAS and staying on the board
      lands on one of its neighbours, and the cell is a neighbour of the one
      stepped onto. */
  lemma StepIsNeighbour(width: int, height: int, x: int, y: int, k: int)
    requires 0 <= k < |Deltas| && InGrid(width, height, x, y)
    requires InGrid(width, height, x + Deltas[k].0, y + Deltas[k].1)
    ensures (x + Deltas[k].0, y + Deltas[k].1) in Neighbours(width, height, x, y)
    ensures (x, y) in Neighbours(width, height, x + Deltas[k].0, y + Deltas[k].1)
  {
    DeltasAreSteps(k);
    RingIsAdjacency(x, y, x + Deltas[k].0, y + Deltas[k].1);
    NeighbourSymmetry(width, height, x, y, x + Deltas[k].0, y + Deltas[k].1);
  }

  /** The neighbours of a cell showing 0 are not mines. */
  lemma BlankNeighbourIsSafe(draws: seq<seq<bool>>, width: int, height: int, x: int, y: int, a: int, b: int)
    requires Shaped(draws, width, height) && InGrid(width, height, x, y)
    requires CellValue(draws, width, height, x, y) == 0 && (a, b) in Neighbours(width, height, x, y)
    ensures CellValue(draws, width, height, a, b) != Mine
  {
    BlankCellHasNoMineNeighbours(draws, width, height, x, y);
  }

  /** Stepping by an entry of DELTAS from a cell showing 0 onto the board
      lands on a cell that was not drawn as a mine. */
  lemma StepFromBlankIsSafe(draws: seq<seq<bool>>, width: int, height: int, x: int, y: int, k: int)
    requires Shaped(draws, width, height) && InGrid(width, height, x, y) && 0 <= k < |Deltas|
    requires CellValue(draws, width, height, x, y) == 0
    requires InGrid(width, height, x + Deltas[k].0, y + Deltas[k].1)
    ensures !draws[x + Deltas[k].0][y + Deltas[k].1]
  {
    StepIsNeighbour(width, height, x, y, k);
    BlankNeighbourIsSafe(draws, width, height, x, y, x + Deltas[k].0, y + Deltas[k].1);
  }

  /** Every in-bounds cell reached from (x, y) by one of the first `k`
      entries of DELTAS is in `s`. */
  predicate StepsIn(width: int, height: int, x: int, y: int, k: int, s: set<(int, int)>)
  {
    forall j :: 0 <= j < k && j < |Deltas| && InGrid(width, height, x + Deltas[j].0, y + Deltas[j].1) ==>
      (x + Deltas[j].0, y + Deltas[j].1) in s
  }

  /** Once the k-th step is in a larger set, the first k + 1 steps are. */
  lemma StepsInNext(width: int, height: int, x: int, y: int, k: int, s0: set<(int, int)>, s1: set<(int, int)>)
    requires 0 <= k < |Deltas| && StepsIn(width, height, x, y, k, s0) && s0 <= s1
    requires InGrid(width, height, x + Deltas[k].0, y + Deltas[k].1) ==> (x + Deltas[k].0, y + Deltas[k].1) in s1
    ensures StepsIn(width, height, x, y, k + 1, s1)
  {
    forall j | 0 <= j < k + 1 && j < |Deltas| && InGrid(width, height, x + Deltas[j].0, y + Deltas[j].1)
      ensures (x + Deltas[j].0, y + Deltas[j].1) in s1
    {
      if j < k {
        assert (x + Deltas[j].0, y + Deltas[j].1) in s0;
      }
    }
  }

  /** Taking every entry of DELTAS from (x, y) meets exactly its neighbours. */
  lemma StepsInAll(width: int, height: int, x: int, y: int, s: set<(int, int)>)
    requires InGrid(width, height, x, y)
    ensures StepsIn(width, height, x, y, |Deltas|, s) <==> Neighbours(width, height, x, y) <= s
  {
    if StepsIn(width, height, x, y, |Deltas|, s) {
      forall p | p in Neighbours(width, height, x, y)
        ensures p in s
      {
        RingIsAdjacency(x, y, p.0, p.1);
        var k := DeltaIndex(p.0 - x, p.1 - y);
        assert (x + Deltas[k].0, y + Deltas[k].1) == p;
      }
    }
    if Neighbours(width, height, x, y) <= s {
      forall j | 0 <= j < |Deltas| && InGrid(width, height, x + Deltas[j].0, y + Deltas[j].1)
        ensures (x + Deltas[j].0, y + Deltas[j].1) in s
      {
        StepIsNeighbour(width, height, x, y, j);
      }
    }
  }

  /** Every cell of a `width x height` board. */
  function Cells(width: int, height: int): (r: set<(int, int)>)
    ensures forall c :: c in r <==> InGrid(width, height, c.0, c.1)
  {
    set i, j | 0 <= i < width && 0 <= j < height :: (i, j)
  }

  /** The cells drawn as mines. */
  function MineCells(draws: seq<seq<bool>>, width: int, height: int): set<(int, int)>
    requires Shaped(draws, width, height)
  {
    set c | c in Cells(width, height) && IsMine(draws, width, height, c)
  }
}
