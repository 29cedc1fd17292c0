/** Solution 2 of street.cpp: recursive backtracking that keeps only the
    better of the two continuations at every cell, as `getSaferPath`
    judges them. */
module RecursiveSearch {
  import opened Streets
  import opened Grids

  /** `safestPath2Helper`. At the exit the path is the answer. In the last
      row or column there is one way on, and a cell that is not a sidewalk
      ends the search with an empty path. Elsewhere both neighbours are
      searched; a neighbour that is not a sidewalk is searched from without
      adding its street. The caller's `path` is changed by reference in the
      source, but no caller reads it afterwards. */
  function SafestPath2Helper(city: City, row: int, col: int, path: seq<Street>): (r: seq<Street>)
    requires IsGrid(city) && InBounds(city, Loc(row, col))
    ensures r == [] || (path <= r && |r| <= |path| + Dist(city, Loc(row, col)))
    decreases Dist(city, Loc(row, col))
  {
    if row == Rows(city) - 1 && col == Cols(city) - 1 then
      path
    else if row == Rows(city) - 1 then
      if !city[row][col + 1].sidewalk then []
      else SafestPath2Helper(city, row, col + 1, path + [city[row][col + 1]])
    else if col == Cols(city) - 1 then
      if !city[row + 1][col].sidewalk then []
      else SafestPath2Helper(city, row + 1, col, path + [city[row + 1][col]])
    else
      var rightPath := Extend(city, path, Loc(row, col + 1));
      var downPath := Extend(city, path, Loc(row + 1, col));
      SaferPath(SafestPath2Helper(city, row, col + 1, rightPath), SafestPath2Helper(city, row + 1, col, downPath))
  }

  /** The path extended by the street at `x` when that street is a
      sidewalk, else the path as it is. */
  function Extend(city: City, path: seq<Street>, x: Loc): (r: seq<Street>)
    requires IsGrid(city) && InBounds(city, x)
    ensures path <= r && |r| == |path| + (if At(city, x).sidewalk then 1 else 0)
    ensures At(city, x).sidewalk ==> r[|path|] == At(city, x)
    ensures Safety(r) == Safety(path) + (if At(city, x).sidewalk then At(city, x).rating else 0)
  {
    if At(city, x).sidewalk then
      SafetyConcat(path, [At(city, x)]);
      path + [At(city, x)]
    else path
  }

  /** `safestPath2`: the search from the top-left street. */
  function SafestPath2(city: City): (r: seq<Street>)
    requires IsGrid(city)
    ensures r == [] || (r[0] == city[0][0] && |r| <= Rows(city) + Cols(city) - 1)
  {
    SafestPath2Helper(city, 0, 0, [city[0][0]])
  }

  /** What the search from `from` with `path` so far returns: never longer
      than a full route; full exactly when some route remains; and then the
      safest continuation of `path` along a route. */
  ghost predicate Outcome(city: City, path: seq<Street>, n: int, ws: seq<seq<Loc>>, res: seq<Street>)
    requires IsGrid(city)
  {
    && Inside(city, ws)
    && |res| <= n
    && (|res| == n <==> ws != [])
    && (ws != [] ==> SafestAmong(city, path, ws, res))
  }

  /** A step onto the open cell `x` keeps the outcome, with the routes from
      `x` prefixed by `x`; a step onto a closed cell leaves no route, and
      a result shorter than a route. */
  lemma OutcomeStep(city: City, path: seq<Street>, n: int, x: Loc, res: seq<Street>)
    requires IsGrid(city)
    requires Open(city, x) ==> Outcome(city, path + [At(city, x)], n, Completions(city, x), res)
    requires !Open(city, x) ==> |res| < n
    ensures Outcome(city, path, n, Branch(city, x), res)
  {
    if Open(city, x) {
      var ws := Completions(city, x);
      var vs := Prefixed(x, ws);
      assert Branch(city, x) == vs;
      PrefixedCells(city, path, x);
      if ws != [] {
        var i :| 0 <= i < |ws| && res == (path + [At(city, x)]) + Cells(city, ws[i]);
        assert res == path + Cells(city, vs[i]);
      }
    } else {
      assert Branch(city, x) == [];
    }
  }

  /** Keeping the safer of two outcomes over two sets of routes gives the
      outcome over both. */
  lemma OutcomeSafer(city: City, path: seq<Street>, n: int, downs: seq<seq<Loc>>, rights: seq<seq<Loc>>,
                     down: seq<Street>, right: seq<Street>, ws: seq<seq<Loc>>, res: seq<Street>)
    requires IsGrid(city)
    requires Outcome(city, path, n, downs, down) && Outcome(city, path, n, rights, right)
    requires ws == downs + rights && res == SaferPath(right, down)
    ensures Outcome(city, path, n, ws, res)
  {
    assert Inside(city, ws) by {
      forall i | 0 <= i < |ws|
        ensures AllIn(city, ws[i])
      {
        if i >= |downs| {
          assert ws[i] == rights[i - |downs|];
        }
      }
    }
    if ws != [] {
      if res == down && |down| == n {
        var i :| 0 <= i < |downs| && res == path + Cells(city, downs[i]);
        assert ws[i] == downs[i];
      } else {
        assert res == right && |right| == n;
        var i :| 0 <= i < |rights| && res == path + Cells(city, rights[i]);
        assert ws[|downs| + i] == rights[i];
      }
      forall i | 0 <= i < |ws|
        ensures Safety(path + Cells(city, ws[i])) <= Safety(res)
      {
        if i < |downs| {
          assert ws[i] == downs[i];
        } else {
          assert ws[i] == rights[i - |downs|];
        }
      }
    }
  }

  /** At the exit the one route left is the empty one, and the path is the
      answer. */
  lemma ExitOutcome(city: City, path: seq<Street>)
    requires IsGrid(city)
    ensures Outcome(city, path, |path|, Completions(city, Exit(city)),
                    SafestPath2Helper(city, Rows(city) - 1, Cols(city) - 1, path))
  {
    assert SafestPath2Helper(city, Rows(city) - 1, Cols(city) - 1, path) == path;
    assert Completions(city, Exit(city)) == [[]];
    Arrived(city, path);
  }

  /** With the empty route alone left, the path so far is the outcome. */
  lemma Arrived(city: City, path: seq<Street>)
    requires IsGrid(city)
    ensures Outcome(city, path, |path|, [[]], path)
  {
    var ws: seq<seq<Loc>> := [[]];
    assert ws[0] == [] && path + Cells(city, ws[0]) == path;
  }

  /** In the last row or column the only way on is `x`: a sidewalk, and the
      outcome there is the outcome here, or not, and nothing is found. */
  lemma EdgeOutcome(city: City, path: seq<Street>, row: int, col: int, x: Loc)
    requires IsGrid(city) && InBounds(city, Loc(row, col)) && Loc(row, col) != Exit(city)
    requires (row == Rows(city) - 1 && x == Loc(row, col + 1)) || (col == Cols(city) - 1 && x == Loc(row + 1, col))
    requires Open(city, x) ==>
      Outcome(city, path + [At(city, x)], |path| + Dist(city, Loc(row, col)), Completions(city, x),
              SafestPath2Helper(city, x.row, x.col, path + [At(city, x)]))
    ensures Outcome(city, path, |path| + Dist(city, Loc(row, col)), Completions(city, Loc(row, col)),
                    SafestPath2Helper(city, row, col, path))
  {
    var from := Loc(row, col);
    var n := |path| + Dist(city, from);
    var res := SafestPath2Helper(city, row, col, path);
    assert res == if Open(city, x) then SafestPath2Helper(city, x.row, x.col, path + [At(city, x)]) else [];
    var other := if x == Down(from) then Right(from) else Down(from);
    assert !Open(city, other);
    CompletionsStep(city, from);
    assert Branch(city, other) == [];
    var ws := Branch(city, x);
    assert Completions(city, from) == ws by {
      assert [] + ws == ws && ws + [] == ws;
    }
    OutcomeStep(city, path, n, x, res);
  }

  /** One of the two searches from an inner cell, over the routes that start
      with a step onto `x`. */
  lemma BranchOutcome(city: City, path: seq<Street>, from: Loc, x: Loc, res: seq<Street>)
    requires IsGrid(city) && InBounds(city, x) && Dist(city, x) == Dist(city, from) - 1
    requires Outcome(city, Extend(city, path, x), |Extend(city, path, x)| + Dist(city, x), Completions(city, x), res)
    ensures Outcome(city, path, |path| + Dist(city, from), Branch(city, x), res)
  {
    OutcomeStep(city, path, |path| + Dist(city, from), x, res);
  }

  /** From an inner cell both searches run, and the safer result wins. */
  lemma InnerOutcome(city: City, path: seq<Street>, row: int, col: int)
    requires IsGrid(city) && 0 <= row < Rows(city) - 1 && 0 <= col < Cols(city) - 1
    requires var down := Loc(row + 1, col);
      Outcome(city, Extend(city, path, down), |Extend(city, path, down)| + Dist(city, down),
              Completions(city, down), SafestPath2Helper(city, row + 1, col, Extend(city, path, down)))
    requires var right := Loc(row, col + 1);
      Outcome(city, Extend(city, path, right), |Extend(city, path, right)| + Dist(city, right),
              Completions(city, right), SafestPath2Helper(city, row, col + 1, Extend(city, path, right)))
    ensures Outcome(city, path, |path| + Dist(city, Loc(row, col)), Completions(city, Loc(row, col)),
                    SafestPath2Helper(city, row, col, path))
  {
    var from := Loc(row, col);
    var down, right := Loc(row + 1, col), Loc(row, col + 1);
    var downRes := SafestPath2Helper(city, row + 1, col, Extend(city, path, down));
    var rightRes := SafestPath2Helper(city, row, col + 1, Extend(city, path, right));
    var n := |path| + Dist(city, from);
    var ws := Completions(city, from);
    var res := SafestPath2Helper(city, row, col, path);
    assert res == SaferPath(rightRes, downRes);
    assert Down(from) == down && Right(from) == right;
    CompletionsStep(city, from);
    BranchOutcome(city, path, from, down, downRes);
    BranchOutcome(city, path, from, right, rightRes);
    OutcomeSafer(city, path, n, Branch(city, down), Branch(city, right), downRes, rightRes, ws, res);
  }

  /** The search from `(row, col)` returns the safest continuation of `path`
      along a route to the exit when there is one, and a shorter sequence
      otherwise. */
  lemma {:induction false} SafestPath2HelperOutcome(city: City, row: int, col: int, path: seq<Street>)
    requires IsGrid(city) && InBounds(city, Loc(row, col))
    ensures Outcome(city, path, |path| + Dist(city, Loc(row, col)), Completions(city, Loc(row, col)),
                    SafestPath2Helper(city, row, col, path))
    decreases Dist(city, Loc(row, col))
  {
    if row == Rows(city) - 1 && col == Cols(city) - 1 {
      ExitOutcome(city, path);
    } else if row == Rows(city) - 1 || col == Cols(city) - 1 {
      var x := if row == Rows(city) - 1 then Loc(row, col + 1) else Loc(row + 1, col);
      if Open(city, x) {
        SafestPath2HelperOutcome(city, x.row, x.col, path + [At(city, x)]);
      }
      EdgeOutcome(city, path, row, col, x);
    } else {
      SafestPath2HelperOutcome(city, row + 1, col, Extend(city, path, Loc(row + 1, col)));
      SafestPath2HelperOutcome(city, row, col + 1, Extend(city, path, Loc(row, col + 1)));
      InnerOutcome(city, path, row, col);
    }
  }

  /** `safestPath2` returns a full-length path exactly when a route exists,
      and then a safest route. */
  lemma SafestPath2Safest(city: City)
    requires IsGrid(city)
    ensures Reachable(city) <==> |SafestPath2(city)| == Rows(city) + Cols(city) - 1
    ensures Reachable(city) ==> Safest(city, SafestPath2(city))
  {
    SafestPath2HelperOutcome(city, 0, 0, [city[0][0]]);
    ReachableCompletions(city);
    if Reachable(city) {
      AmongIsSafest(city, SafestPath2(city));
    }
  }
}
