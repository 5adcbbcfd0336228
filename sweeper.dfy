/** The game object: the board of a `width x height` PyneSweeper window with
    the state its buttons carry (hidden or revealed, text, colour), the mine
    field, and whether the game is lost. */
module Sweeper {
  import opened Field
  import opened Generation
  import opened Flood
  import opened Sweep
  import opened Labels

  /** A fresh `w x h` grid holding `v` in every cell. */
  method NewGrid<T>(w: nat, h: nat, v: T) returns (a: array2<T>)
    ensures fresh(a) && a.Length0 == w && a.Length1 == h
    ensures forall i, j :: 0 <= i < w && 0 <= j < h ==> a[i, j] == v
  {
    a := new T[w, h]((i, j) => v);
  }

  /** A button agrees with its cell: it is disabled exactly when the cell
      is shown, then showing the label of the cell's value in the COLORS
      entry of that value; while hidden it is blank or flagged and has no
      colour, flagged exactly when the cell is in the flag set, and the cell
      is in the hidden measure. */
  predicate ButtonAgrees(b: Button, value: int, isShown: bool, isFlag: bool, isHidden: bool)
  {
    && (b.state <==> !isShown)
    && (isFlag <==> b.state && b.face == Flag)
    && (b.state ==> isHidden)
    && (if b.state then (b.face == Blank || b.face == Flag) && b.foreground == ""
        else b.face == Label(value) && -1 <= value <= 8 && b.foreground == Foreground(value))
  }

  class PyneSweeper {
    /** The number of columns; cells are indexed [x, y] with 0 <= x < width. */
    var width: int
    /** The number of rows. */
    var height: int
    /** Mine sentinel -1, or the number of mines around the cell. */
    var field: array2<int>
    /** The cell buttons, one per cell, indexed like the field. */
    var buttons: array2<Button>
    var gameOver: bool
    /** The mine draws the current field was generated from. */
    ghost var mines: seq<seq<bool>>

    /** The revealed cells, kept in step with the buttons' `state`. */
    ghost var shown: set<(int, int)>
    /** The hidden cells showing the flag mark. */
    ghost var flags: set<(int, int)>
    /** A superset of the hidden cells that every reveal shrinks: the measure
        that bounds the flood fill's recursion. */
    ghost var hidden: set<(int, int)>

    ghost predicate Valid()
      reads this, field, buttons
    {
      Shapes() && FieldMatchesMines() && ButtonsMatchCells()
    }

    /** Both grids have the board's dimensions and the draws cover the board. */
    ghost predicate Shapes()
      reads this`width, this`height, this`field, this`buttons, this`mines
    {
      && field.Length0 == width && field.Length1 == height
      && buttons.Length0 == width && buttons.Length1 == height
      && Shaped(mines, width, height)
    }

    /** The field holds, cell by cell, the value the draws determine. */
    ghost predicate FieldMatchesMines()
      reads this`width, this`height, this`field, this`buttons, this`mines, field
      requires Shapes()
    {
      forall i, j :: 0 <= i < width && 0 <= j < height ==> field[i, j] == CellValue(mines, width, height, i, j)
    }

    /** `shown` and `flags` hold cells of the board, no flagged cell is
        shown, and every button agrees with its cell's value and with the
        ghost sets. */
    ghost predicate ButtonsMatchCells()
      reads this`width, this`height, this`field, this`buttons, this`mines, this`shown, this`flags, this`hidden, field, buttons
      requires Shapes()
    {
      && (forall c :: c in shown ==> InGrid(width, height, c.0, c.1))
      && (forall c :: c in flags ==> InGrid(width, height, c.0, c.1) && c !in shown)
      && (forall i, j {:trigger buttons[i, j]} :: 0 <= i < width && 0 <= j < height ==>
            ButtonAgrees(buttons[i, j], field[i, j], (i, j) in shown, (i, j) in flags, (i, j) in hidden))
    }

    /** __init__ with create_field: an empty board, then a first resize. */
    constructor (w: nat, h: nat, draws: seq<seq<bool>>)
      requires Shaped(draws, w, h)
      ensures Valid() && fresh(field) && fresh(buttons)
      ensures width == w && height == h && mines == draws && !gameOver
      ensures shown == {} && flags == {}
      ensures forall i, j :: 0 <= i < width && 0 <= j < height ==>
                buttons[i, j] == Button(true, Blank, "") && field[i, j] == CellValue(draws, w, h, i, j)
    {
      width, height := 0, 0;
      field := new int[0, 0];
      buttons := new Button[0, 0];
      gameOver := false;
      mines := [];
      shown, flags, hidden := {}, {}, Cells(w, h);
      new;
      ResizeField(w, h, draws);
    }

    /** resize_field: a new board of the given size, every button hidden,
        blank and uncoloured, the game no longer over, and mines generated
        from `draws`. */
    method ResizeField(w: nat, h: nat, draws: seq<seq<bool>>)
      requires Shaped(draws, w, h)
      modifies this
      ensures Valid() && fresh(field) && fresh(buttons)
      ensures width == w && height == h && mines == draws && !gameOver
      ensures shown == {} && flags == {}
      ensures forall i, j :: 0 <= i < width && 0 <= j < height ==>
                buttons[i, j] == Button(true, Blank, "") && field[i, j] == CellValue(draws, w, h, i, j)
    {
      gameOver := false;
      width, height := w, h;
      buttons := NewGrid(w, h, Button(true, Blank, ""));
      shown, flags, hidden := {}, {}, Cells(w, h);
      GenMines(draws);
    }

    /** gen_mines: a fresh all-zero field filled in one pass; the result is
        exactly the two-pass value of every cell. */
    method GenMines(draws: seq<seq<bool>>)
      requires Shaped(draws, width, height) && 0 <= width && 0 <= height
      modifies this`field, this`mines
      ensures fresh(field) && field.Length0 == width && field.Length1 == height
      ensures mines == draws
      ensures forall i, j :: 0 <= i < width && 0 <= j < height ==> field[i, j] == CellValue(draws, width, height, i, j)
    {
      var f := NewGrid(width, height, 0);
      forall i, j | 0 <= i < width && 0 <= j < height
        ensures f[i, j] == PassValue(draws, width, height, 0, 0, i, j)
      {
        PassStart(draws, width, height, i, j);
      }
      for x := 0 to width
        invariant forall i, j :: 0 <= i < width && 0 <= j < height ==> f[i, j] == PassValue(draws, width, height, x, 0, i, j)
      {
        for y := 0 to height
          invariant forall i, j :: 0 <= i < width && 0 <= j < height ==> f[i, j] == PassValue(draws, width, height, x, y, i, j)
        {
          if draws[x][y] {
            PlaceMine(f, draws, width, height, x, y);
          } else {
            forall i, j | 0 <= i < width && 0 <= j < height
              ensures f[i, j] == PassValue(draws, width, height, x, y + 1, i, j)
            {
              PassSafe(draws, width, height, x, y, i, j);
            }
          }
        }
        forall i, j | 0 <= i < width && 0 <= j < height
          ensures f[i, j] == PassValue(draws, width, height, x + 1, 0, i, j)
        {
          PassNextColumn(draws, width, height, x, i, j);
        }
      }
      forall i, j | 0 <= i < width && 0 <= j < height
        ensures f[i, j] == CellValue(draws, width, height, i, j)
      {
        PassEnd(draws, width, height, i, j);
      }
      field := f;
      mines := draws;
    }

    /** display: the button at (x, y) is disabled and shows its cell's
        label in the COLORS entry of its value, which always exists. */
    method Display(x: int, y: int)
      requires Valid() && InGrid(width, height, x, y)
      modifies this`shown, this`flags, this`hidden, buttons
      ensures Valid()
      ensures shown == old(shown) + {(x, y)} && flags == old(flags) - {(x, y)} && hidden == old(hidden) - {(x, y)}
      ensures -1 <= field[x, y] <= 8
      ensures buttons[x, y] == Button(false, Label(field[x, y]), Foreground(field[x, y]))
      ensures forall i, j :: 0 <= i < width && 0 <= j < height && (i != x || j != y) ==> buttons[i, j] == old(buttons[i, j])
    {
      var n := field[x, y];
      buttons[x, y] := Button(false, Label(n), Foreground(n));
      shown, flags, hidden := shown + {(x, y)}, flags - {(x, y)}, hidden - {(x, y)};
    }

    /** over: the game is lost and every hidden mine is revealed; no other
        cell changes. */
    method Over()
      requires Valid()
      modifies this`gameOver, this`shown, this`flags, this`hidden, buttons
      ensures Valid() && gameOver && hidden <= old(hidden)
      ensures shown == old(shown) + MineCells(mines, width, height)
      ensures flags == old(flags) - shown
      ensures forall i, j :: 0 <= i < width && 0 <= j < height && !mines[i][j] ==> buttons[i, j] == old(buttons[i, j])
      ensures forall i, j :: 0 <= i < width && 0 <= j < height && mines[i][j] ==> buttons[i, j] == Button(false, MineMark, Foreground(Mine))
    {
      gameOver := true;
      for x := 0 to width
        invariant Valid() && gameOver && hidden <= old(hidden)
        invariant SweptTo(mines, width, height, old(shown), shown, x, 0)
        invariant flags == old(flags) - shown
        invariant forall i, j :: 0 <= i < width && 0 <= j < height && !mines[i][j] ==> buttons[i, j] == old(buttons[i, j])
      {
        for y := 0 to height
          invariant Valid() && gameOver && hidden <= old(hidden)
          invariant SweptTo(mines, width, height, old(shown), shown, x, y)
          invariant flags == old(flags) - shown
          invariant forall i, j :: 0 <= i < width && 0 <= j < height && !mines[i][j] ==> buttons[i, j] == old(buttons[i, j])
        {
          ghost var before := shown;
          assert field[x, y] == Mine <==> mines[x][y];
          if buttons[x, y].state && field[x, y] == Mine {
            Display(x, y);
          }
          SweptStep(mines, width, height, old(shown), before, shown, x, y);
        }
        SweptNextColumn(mines, width, height, old(shown), shown, x);
      }
      SweptAll(mines, width, height, old(shown), shown);
      forall i, j | 0 <= i < width && 0 <= j < height && mines[i][j]
        ensures buttons[i, j] == Button(false, MineMark, Foreground(Mine))
      {
        assert (i, j) in MineCells(mines, width, height);
        assert field[i, j] == Mine;
      }
    }

    /** open: a hidden cell is revealed; a mine ends the game, a blank cell
        opens its in-bounds neighbours, and a revealed cell is left alone.
        The flag mark does not stop it. */
    method Open(x: int, y: int) returns (ghost parent: map<(int, int), (int, int)>, ghost depth: map<(int, int), nat>)
      requires Valid() && InGrid(width, height, x, y)
      modifies this`gameOver, this`shown, this`flags, this`hidden, buttons
      decreases hidden, 0
      ensures Valid() && hidden <= old(hidden)
      ensures old(shown) <= shown && (x, y) in shown
      ensures flags == old(flags) - shown
      ensures gameOver == (old(gameOver) || ((x, y) !in old(shown) && mines[x][y]))
      ensures (x, y) in old(shown) ==> shown == old(shown) && unchanged(buttons)
      ensures (x, y) !in old(shown) && mines[x][y] ==> shown == old(shown) + MineCells(mines, width, height)
      ensures (x, y) !in old(shown) && CellValue(mines, width, height, x, y) == 0 ==> StepsIn(width, height, x, y, |Deltas|, shown)
      ensures CellValue(mines, width, height, x, y) > 0 ==> shown <= old(shown) + {(x, y)}
      ensures !mines[x][y] ==> Flooding(mines, width, height, old(shown), shown, old(flags), flags)
      ensures BlanksSpread(mines, width, height, shown - old(shown), shown)
      ensures (x, y) !in old(shown) && !mines[x][y] ==> Rooted(mines, width, height, (x, y), shown - old(shown), parent, depth)
    {
      parent, depth := map[], map[];
      if buttons[x, y].state {
        Display(x, y);
        if field[x, y] == Mine {
          ghost var displayed := shown;
          Over();
          MineThenMines(mines, width, height, (x, y), old(shown), displayed, shown);
        } else {
          ghost var displayed, flagsDisplayed := shown, flags;
          FloodNone(mines, width, height, shown, flags);
          parent, depth := map[], map[(x, y) := 0];
          if field[x, y] == 0 {
            parent, depth := OpenNeighbours(x, y, {(x, y)}, parent, depth);
          }
          assert shown - old(shown) == {(x, y)} + (shown - displayed);
          assert Spreads(mines, width, height, (x, y), shown);
          FloodFrom(mines, width, height, (x, y), old(shown), displayed, shown, old(flags), flagsDisplayed, flags);
        }
      }
    }

    /** The flood step of open for a revealed blank cell (x, y): every
        in-bounds neighbour, taken in DELTAS order, is opened. */
    method OpenNeighbours(x: int, y: int, ghost reached: set<(int, int)>,
                          ghost parent0: map<(int, int), (int, int)>, ghost depth0: map<(int, int), nat>)
        returns (ghost parent: map<(int, int), (int, int)>, ghost depth: map<(int, int), nat>)
      requires Valid() && InGrid(width, height, x, y) && (x, y) in shown && field[x, y] == 0
      requires reached <= shown && Rooted(mines, width, height, (x, y), reached, parent0, depth0)
      modifies this`gameOver, this`shown, this`flags, this`hidden, buttons
      decreases hidden, 2
      ensures Valid() && gameOver == old(gameOver) && hidden <= old(hidden)
      ensures StepsIn(width, height, x, y, |Deltas|, shown)
      ensures Flooding(mines, width, height, old(shown), shown, old(flags), flags)
      ensures Rooted(mines, width, height, (x, y), reached + (shown - old(shown)), parent, depth)
    {
      FloodNone(mines, width, height, shown, flags);
      parent, depth := parent0, depth0;
      assert reached + (shown - old(shown)) == reached;
      for k := 0 to |Deltas|
        invariant Valid() && gameOver == old(gameOver) && hidden <= old(hidden)
        invariant Flooding(mines, width, height, old(shown), shown, old(flags), flags)
        invariant StepsIn(width, height, x, y, k, shown)
        invariant Rooted(mines, width, height, (x, y), reached + (shown - old(shown)), parent, depth)
      {
        ghost var before, flagsBefore := shown, flags;
        parent, depth := OpenDelta(x, y, k, reached + (shown - old(shown)), parent, depth);
        assert reached + (shown - old(shown)) == (reached + (before - old(shown))) + (shown - before);
        StepsInNext(width, height, x, y, k, before, shown);
        FloodTrans(mines, width, height, old(shown), before, shown, old(flags), flagsBefore, flags);
      }
    }

    /** One iteration of the DELTAS loop of open at the revealed blank cell
        (x, y): the k-th neighbour is opened when it is on the board. */
    method OpenDelta(x: int, y: int, k: int, ghost reached: set<(int, int)>,
                     ghost parent0: map<(int, int), (int, int)>, ghost depth0: map<(int, int), nat>)
        returns (ghost parent: map<(int, int), (int, int)>, ghost depth: map<(int, int), nat>)
      requires Valid() && InGrid(width, height, x, y) && (x, y) in shown && field[x, y] == 0
      requires 0 <= k < |Deltas|
      requires reached <= shown && Rooted(mines, width, height, (x, y), reached, parent0, depth0)
      modifies this`gameOver, this`shown, this`flags, this`hidden, buttons
      decreases hidden, 1
      ensures Valid() && gameOver == old(gameOver) && hidden <= old(hidden) && (x, y) in shown
      ensures InGrid(width, height, x + Deltas[k].0, y + Deltas[k].1) ==> (x + Deltas[k].0, y + Deltas[k].1) in shown
      ensures Flooding(mines, width, height, old(shown), shown, old(flags), flags)
      ensures Rooted(mines, width, height, (x, y), reached + (shown - old(shown)), parent, depth)
    {
      parent, depth := parent0, depth0;
      var dx, dy := Deltas[k].0, Deltas[k].1;
      if x + dx > -1 && x + dx < width && y + dy > -1 && y + dy < height {
        assert CellValue(mines, width, height, x, y) == 0;
        StepFromBlankIsSafe(mines, width, height, x, y, k);
        assert !mines[x + dx][y + dy];
        ghost var subParent, subDepth;
        subParent, subDepth := Open(x + dx, y + dy);
        parent, depth := RootedStep(mines, width, height, x, y, k, reached, parent0, depth0,
                                    old(shown), shown, subParent, subDepth);
      } else {
        FloodNone(mines, width, height, shown, flags);
        assert reached + (shown - old(shown)) == reached;
      }
    }

    /** right_click: once the game is over, or on a revealed cell, nothing
        happens; otherwise the flag mark is toggled. */
    method RightClick(x: int, y: int)
      requires Valid() && InGrid(width, height, x, y)
      modifies this`flags, buttons
      ensures Valid() && shown == old(shown)
      ensures buttons[x, y] == if !gameOver && old(buttons[x, y]).state
                               then old(buttons[x, y]).(face := Toggled(old(buttons[x, y]).face))
                               else old(buttons[x, y])
      ensures forall i, j :: 0 <= i < width && 0 <= j < height && (i != x || j != y) ==> buttons[i, j] == old(buttons[i, j])
      ensures flags == if gameOver || (x, y) in shown then old(flags)
                       else if (x, y) in old(flags) then old(flags) - {(x, y)} else old(flags) + {(x, y)}
    {
      if !gameOver {
        if buttons[x, y].state {
          if Text(buttons[x, y].face) != "" {
            buttons[x, y] := buttons[x, y].(face := Blank);
            flags := flags - {(x, y)};
          } else {
            buttons[x, y] := buttons[x, y].(face := Flag);
            flags := flags + {(x, y)};
          }
        }
      }
    }

    /** left_click: once the game is over nothing happens; otherwise the
        clicked cell is opened. */
    method LeftClick(x: int, y: int) returns (ghost parent: map<(int, int), (int, int)>, ghost depth: map<(int, int), nat>)
      requires Valid() && InGrid(width, height, x, y)
      modifies this`gameOver, this`shown, this`flags, this`hidden, buttons
      ensures Valid()
      ensures old(gameOver) ==> gameOver && shown == old(shown) && flags == old(flags)
      ensures old(gameOver) ==> unchanged(buttons)
      ensures !old(gameOver) ==> (x, y) in shown && old(shown) <= shown && flags == old(flags) - shown
      ensures !old(gameOver) ==> (gameOver <==> (x, y) !in old(shown) && mines[x][y])
      ensures !old(gameOver) && (x, y) in old(shown) ==> shown == old(shown) && unchanged(buttons)
      ensures !old(gameOver) && gameOver ==> shown == old(shown) + MineCells(mines, width, height)
      ensures !old(gameOver) && (x, y) !in old(shown) && CellValue(mines, width, height, x, y) == 0 ==>
                StepsIn(width, height, x, y, |Deltas|, shown)
      ensures !old(gameOver) && CellValue(mines, width, height, x, y) > 0 ==> shown <= old(shown) + {(x, y)}
      ensures !gameOver ==> NoMines(mines, width, height, shown - old(shown))
      ensures BlanksSpread(mines, width, height, shown - old(shown), shown)
      ensures !old(gameOver) && (x, y) !in old(shown) && !mines[x][y] ==>
                Rooted(mines, width, height, (x, y), shown - old(shown), parent, depth)
    {
      parent, depth := map[], map[];
      if !gameOver {
        parent, depth := Open(x, y);
      }
    }
  }
}
