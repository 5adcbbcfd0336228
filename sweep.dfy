/** The sweep of `over` across the board, column by column in the order of
    mine generation, revealing every hidden mine it passes. */
module Sweep {
  import opened Field
  import opened Generation

  /** `after` is `before` together with every mine the column-by-column
      sweep of `over` has passed on reaching (x, y). */
  ghost predicate SweptTo(draws: seq<seq<bool>>, width: int, height: int,
                          before: set<(int, int)>, after: set<(int, int)>, x: int, y: int)
    requires Shaped(draws, width, height)
  {
    forall c :: c in after <==> c in before || (IsMine(draws, width, height, c) && Visited(x, y, c.0, c.1))
  }

  /** Passing (x, y) adds it exactly when it is a mine. */
  lemma SweptStep(draws: seq<seq<bool>>, width: int, height: int,
                  before: set<(int, int)>, s0: set<(int, int)>, s1: set<(int, int)>, x: int, y: int)
    requires Shaped(draws, width, height) && InGrid(width, height, x, y)
    requires SweptTo(draws, width, height, before, s0, x, y)
    requires s1 == if draws[x][y] then s0 + {(x, y)} else s0
    ensures SweptTo(draws, width, height, before, s1, x, y + 1)
  {
    forall c ensures c in s1 <==> c in before || (IsMine(draws, width, height, c) && Visited(x, y + 1, c.0, c.1))
    {
      assert c in s0 <==> c in before || (IsMine(draws, width, height, c) && Visited(x, y, c.0, c.1));
    }
  }

  /** The end of one column is the start of the next. */
  lemma SweptNextColumn(draws: seq<seq<bool>>, width: int, height: int,
                        before: set<(int, int)>, after: set<(int, int)>, x: int)
    requires Shaped(draws, width, height)
    requires SweptTo(draws, width, height, before, after, x, height)
    ensures SweptTo(draws, width, height, before, after, x + 1, 0)
  {
    forall c ensures c in after <==> c in before || (IsMine(draws, width, height, c) && Visited(x + 1, 0, c.0, c.1))
    {
      assert c in after <==> c in before || (IsMine(draws, width, height, c) && Visited(x, height, c.0, c.1));
    }
  }

  /** Once the sweep has passed the last column, every mine has been added. */
  lemma SweptAll(draws: seq<seq<bool>>, width: int, height: int, before: set<(int, int)>, after: set<(int, int)>)
    requires Shaped(draws, width, height)
    requires SweptTo(draws, width, height, before, after, width, 0)
    ensures after == before + MineCells(draws, width, height)
  {
    forall c | c in before + MineCells(draws, width, height)
      ensures c in after
    {
      assert c in before || IsMine(draws, width, height, c);
    }
  }
}
