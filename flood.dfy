/** Set-level facts about a flood fill over a generated field: which cells
    it opens, through which blank cells each of them was reached, and why it
    never steps onto a mine. */
module Flood {
  import opened Field

  /** None of `cells` is a mine. */
  ghost predicate NoMines(draws: seq<seq<bool>>, width: int, height: int, cells: set<(int, int)>)
    requires Shaped(draws, width, height)
  {
    forall c {:trigger IsMine(draws, width, height, c)} :: c in cells ==> !IsMine(draws, width, height, c)
  }

  /** `c` is on the board and, when it counts no mines, every cell DELTAS
      reaches from it, that is each of its neighbours (`StepsInAll`), is in
      `shown`. */
  ghost predicate Spreads(draws: seq<seq<bool>>, width: int, height: int, c: (int, int), shown: set<(int, int)>)
    requires Shaped(draws, width, height)
  {
    InGrid(width, height, c.0, c.1) &&
    (CellValue(draws, width, height, c.0, c.1) == 0 ==> StepsIn(width, height, c.0, c.1, |Deltas|, shown))
  }

  /** Every blank cell in `flooded` has all its neighbours in `shown`. */
  ghost predicate BlanksSpread(draws: seq<seq<bool>>, width: int, height: int, flooded: set<(int, int)>, shown: set<(int, int)>)
    requires Shaped(draws, width, height)
  {
    forall c {:trigger Spreads(draws, width, height, c, shown)} :: c in flooded ==> Spreads(draws, width, height, c, shown)
  }

  /** Cells that are not blank spread trivially. */
  lemma NonBlanksSpread(draws: seq<seq<bool>>, width: int, height: int, flooded: set<(int, int)>, shown: set<(int, int)>)
    requires Shaped(draws, width, height)
    requires forall c :: c in flooded ==> InGrid(width, height, c.0, c.1) && CellValue(draws, width, height, c.0, c.1) != 0
    ensures BlanksSpread(draws, width, height, flooded, shown)
  {
  }

  /** Two floods, the second run after the first, spread as one. */
  lemma SpreadJoin(draws: seq<seq<bool>>, width: int, height: int,
                   flooded1: set<(int, int)>, shown1: set<(int, int)>, flooded2: set<(int, int)>, shown2: set<(int, int)>)
    requires Shaped(draws, width, height)
    requires BlanksSpread(draws, width, height, flooded1, shown1) && shown1 <= shown2
    requires BlanksSpread(draws, width, height, flooded2, shown2)
    ensures BlanksSpread(draws, width, height, flooded1 + flooded2, shown2)
  {
    forall c | c in flooded1 + flooded2
      ensures Spreads(draws, width, height, c, shown2)
    {
      if c in flooded1 {
        assert Spreads(draws, width, height, c, shown1);
      }
    }
  }

  /** No mine among the union of two mine-free sets. */
  lemma NoMinesJoin(draws: seq<seq<bool>>, width: int, height: int, a: set<(int, int)>, b: set<(int, int)>)
    requires Shaped(draws, width, height)
    requires NoMines(draws, width, height, a) && NoMines(draws, width, height, b)
    ensures NoMines(draws, width, height, a + b)
  {
  }

  /** What holds partway through opening the neighbours of a revealed blank
      cell: the cells revealed since `start` hold no mine and are closed
      under opening blanks, and the flags lost are exactly the flags on
      cells that are now revealed. */
  ghost predicate Flooding(draws: seq<seq<bool>>, width: int, height: int,
                           start: set<(int, int)>, shown: set<(int, int)>,
                           flagsStart: set<(int, int)>, flags: set<(int, int)>)
    requires Shaped(draws, width, height)
  {
    && start <= shown && flags == flagsStart - shown
    && BlanksSpread(draws, width, height, shown - start, shown)
    && NoMines(draws, width, height, shown - start)
  }

  /** Two floods, the second run after the first, make one flood. */
  lemma FloodTrans(draws: seq<seq<bool>>, width: int, height: int,
                   s0: set<(int, int)>, s1: set<(int, int)>, s2: set<(int, int)>,
                   f0: set<(int, int)>, f1: set<(int, int)>, f2: set<(int, int)>)
    requires Shaped(draws, width, height)
    requires Flooding(draws, width, height, s0, s1, f0, f1)
    requires Flooding(draws, width, height, s1, s2, f1, f2)
    ensures Flooding(draws, width, height, s0, s2, f0, f2)
  {
    SpreadJoin(draws, width, height, s1 - s0, s1, s2 - s1, s2);
    NoMinesJoin(draws, width, height, s1 - s0, s2 - s1);
    assert s2 - s0 == (s1 - s0) + (s2 - s1);
  }

  /** Revealing the safe cell `c` and then flooding on, once `c` has
      spread, is itself a flood. */
  lemma FloodFrom(draws: seq<seq<bool>>, width: int, height: int, c: (int, int),
                  s0: set<(int, int)>, s1: set<(int, int)>, s2: set<(int, int)>,
                  f0: set<(int, int)>, f1: set<(int, int)>, f2: set<(int, int)>)
    requires Shaped(draws, width, height)
    requires s1 == s0 + {c} && f1 == f0 - {c}
    requires !IsMine(draws, width, height, c) && Spreads(draws, width, height, c, s2)
    requires Flooding(draws, width, height, s1, s2, f1, f2)
    ensures Flooding(draws, width, height, s0, s2, f0, f2)
  {
    assert Spreads(draws, width, height, c, s2);
    SpreadJoin(draws, width, height, {c} - s0, s2, s2 - s1, s2);
    assert s2 - s0 == ({c} - s0) + (s2 - s1);
  }

  /** Revealing the mine `c` and then every mine reveals exactly the mines,
      none of which has neighbours to open. */
  lemma MineThenMines(draws: seq<seq<bool>>, width: int, height: int, c: (int, int),
                      s0: set<(int, int)>, s1: set<(int, int)>, s2: set<(int, int)>)
    requires Shaped(draws, width, height) && IsMine(draws, width, height, c)
    requires s1 == s0 + {c} && s2 == s1 + MineCells(draws, width, height)
    ensures s2 == s0 + MineCells(draws, width, height)
    ensures BlanksSpread(draws, width, height, s2 - s0, s2)
  {
    assert c in MineCells(draws, width, height);
    NonBlanksSpread(draws, width, height, s2 - s0, s2);
  }

  /** Nothing revealed is a flood. */
  lemma FloodNone(draws: seq<seq<bool>>, width: int, height: int, s: set<(int, int)>, f: set<(int, int)>)
    requires Shaped(draws, width, height)
    requires forall c :: c in f ==> c !in s
    ensures Flooding(draws, width, height, s, s, f, f)
  {
    assert s - s == {};
  }

  /** `c` is on the board and counts no mines. */
  ghost predicate IsBlank(draws: seq<seq<bool>>, width: int, height: int, c: (int, int))
    requires Shaped(draws, width, height)
  {
    OnBoard(width, height, c) && CellValue(draws, width, height, c.0, c.1) == 0
  }

  /** Every cell of `reached` other than `root` was reached from an adjacent
      blank cell of `reached`: `parent` names that cell and `depth` strictly
      decreases along parents, so following them always ends at `root`. */
  ghost predicate Rooted(draws: seq<seq<bool>>, width: int, height: int, root: (int, int), reached: set<(int, int)>,
                         parent: map<(int, int), (int, int)>, depth: map<(int, int), nat>)
    requires Shaped(draws, width, height)
  {
    && root in reached && depth.Keys == reached && parent.Keys == reached - {root} && depth[root] == 0
    && forall c {:trigger parent[c]} :: c in parent ==>
         && parent[c] in reached && IsBlank(draws, width, height, parent[c])
         && Adjacent(parent[c].0, parent[c].1, c.0, c.1) && depth[parent[c]] < depth[c]
  }

  /** Opening `n`, a neighbour of the blank `root`, reached the cells `sub`,
      none of them revealed before; they join the cells reached from `root`, `n`
      hanging below `root`. */
  lemma Graft(draws: seq<seq<bool>>, width: int, height: int, root: (int, int), reached: set<(int, int)>,
              parent: map<(int, int), (int, int)>, depth: map<(int, int), nat>,
              n: (int, int), sub: set<(int, int)>, subParent: map<(int, int), (int, int)>, subDepth: map<(int, int), nat>)
      returns (parent': map<(int, int), (int, int)>, depth': map<(int, int), nat>)
    requires Shaped(draws, width, height)
    requires Rooted(draws, width, height, root, reached, parent, depth) && IsBlank(draws, width, height, root)
    requires Adjacent(root.0, root.1, n.0, n.1)
    requires Rooted(draws, width, height, n, sub, subParent, subDepth) && reached !! sub
    ensures Rooted(draws, width, height, root, reached + sub, parent', depth')
  {
    parent' := parent + subParent[n := root];
    depth' := depth + map c | c in sub :: subDepth[c] + 1;
    forall c | c in parent'
      ensures && parent'[c] in reached + sub && IsBlank(draws, width, height, parent'[c])
              && Adjacent(parent'[c].0, parent'[c].1, c.0, c.1) && depth'[parent'[c]] < depth'[c]
    {
      if c in reached {
        assert parent'[c] == parent[c];
      } else if c != n {
        assert parent'[c] == subParent[c];
      }
    }
  }

  /** One step of the DELTAS loop from the blank (x, y): the cells reached
      from (x, y) so far, `reached`, grow by whatever opening the k-th
      neighbour revealed, nothing when it was already revealed. */
  lemma RootedStep(draws: seq<seq<bool>>, width: int, height: int, x: int, y: int, k: int, reached: set<(int, int)>,
                   parent: map<(int, int), (int, int)>, depth: map<(int, int), nat>,
                   before: set<(int, int)>, after: set<(int, int)>,
                   subParent: map<(int, int), (int, int)>, subDepth: map<(int, int), nat>)
      returns (parent': map<(int, int), (int, int)>, depth': map<(int, int), nat>)
    requires Shaped(draws, width, height) && InGrid(width, height, x, y) && CellValue(draws, width, height, x, y) == 0
    requires 0 <= k < |Deltas| && InGrid(width, height, x + Deltas[k].0, y + Deltas[k].1)
    requires Rooted(draws, width, height, (x, y), reached, parent, depth) && reached <= before
    requires (x + Deltas[k].0, y + Deltas[k].1) in before ==> after == before
    requires (x + Deltas[k].0, y + Deltas[k].1) !in before ==>
               Rooted(draws, width, height, (x + Deltas[k].0, y + Deltas[k].1), after - before, subParent, subDepth)
    ensures Rooted(draws, width, height, (x, y), reached + (after - before), parent', depth')
  {
    if (x + Deltas[k].0, y + Deltas[k].1) in before {
      assert reached + (after - before) == reached;
      parent', depth' := parent, depth;
    } else {
      DeltasAreSteps(k);
      parent', depth' := Graft(draws, width, height, (x, y), reached, parent, depth,
                               (x + Deltas[k].0, y + Deltas[k].1), after - before, subParent, subDepth);
    }
  }

  /** The chain of parents from `c` back to `root`: each link after the
      first is a reached blank cell next to the one before it. */
  ghost function PathToRoot(draws: seq<seq<bool>>, width: int, height: int, root: (int, int), reached: set<(int, int)>,
                            parent: map<(int, int), (int, int)>, depth: map<(int, int), nat>, c: (int, int)): (path: seq<(int, int)>)
    requires Shaped(draws, width, height) && Rooted(draws, width, height, root, reached, parent, depth) && c in reached
    ensures |path| >= 1 && path[0] == c && path[|path| - 1] == root
    ensures forall i :: 0 <= i < |path| ==> path[i] in reached
    ensures forall i :: 1 <= i < |path| ==>
              IsBlank(draws, width, height, path[i]) && Adjacent(path[i].0, path[i].1, path[i - 1].0, path[i - 1].1)
    decreases depth[c]
  {
    if c == root then [c]
    else [c] + PathToRoot(draws, width, height, root, reached, parent, depth, parent[c])
  }

  /** A cell reached from `root` in the flood `s2` is in every other flood
      `s1` from `root` over the same revealed cells `before`. */
  lemma {:induction false} ReachedIsOpened(draws: seq<seq<bool>>, width: int, height: int, root: (int, int), before: set<(int, int)>,
                                           s1: set<(int, int)>, s2: set<(int, int)>,
                                           p2: map<(int, int), (int, int)>, d2: map<(int, int), nat>, c: (int, int))
    requires Shaped(draws, width, height)
    requires root in s1 && BlanksSpread(draws, width, height, s1, before + s1)
    requires Rooted(draws, width, height, root, s2, p2, d2) && BlanksSpread(draws, width, height, s2, before + s2)
    requires before !! s2 && c in s2
    ensures c in s1
    decreases d2[c]
  {
    if c != root {
      var p := p2[c];
      ReachedIsOpened(draws, width, height, root, before, s1, s2, p2, d2, p);
      assert Spreads(draws, width, height, p, before + s1);
      StepsInAll(width, height, p.0, p.1, before + s1);
      assert Spreads(draws, width, height, c, before + s2);
      RingIsAdjacency(p.0, p.1, c.0, c.1);
      assert c in Neighbours(width, height, p.0, p.1);
    }
  }

  /** The cells a flood from `root` opens are determined: two sets of newly
      revealed cells, each reached from `root` and each spreading past every
      blank it holds, are equal. */
  lemma FloodIsDetermined(draws: seq<seq<bool>>, width: int, height: int, root: (int, int), before: set<(int, int)>,
                          s1: set<(int, int)>, p1: map<(int, int), (int, int)>, d1: map<(int, int), nat>,
                          s2: set<(int, int)>, p2: map<(int, int), (int, int)>, d2: map<(int, int), nat>)
    requires Shaped(draws, width, height) && before !! s1 && before !! s2
    requires Rooted(draws, width, height, root, s1, p1, d1) && BlanksSpread(draws, width, height, s1, before + s1)
    requires Rooted(draws, width, height, root, s2, p2, d2) && BlanksSpread(draws, width, height, s2, before + s2)
    ensures s1 == s2
  {
    forall c | c in s2
      ensures c in s1
    {
      ReachedIsOpened(draws, width, height, root, before, s1, s2, p2, d2, c);
    }
    forall c | c in s1
      ensures c in s2
    {
      ReachedIsOpened(draws, width, height, root, before, s2, s1, p1, d1, c);
    }
  }
}
