/** Solution 1 of street.cpp: enumerate every route recursively into a
    priority queue keyed by negated safety, then dequeue the least key. */
module ExhaustiveSearch {
  import opened Streets
  import opened Grids
  import opened PriorityQueues
  import opened Seqs

  /** The entries `safestPath1Helper` enqueues for the routes `ws` continuing
      `path`: each finished path, keyed by its negated safety. */
  function Finished(city: City, path: seq<Street>, ws: seq<seq<Loc>>): seq<Entry<seq<Street>>>
    requires IsGrid(city) && Inside(city, ws)
  {
    seq(|ws|, i requires 0 <= i < |ws| =>
      Entry(path + Cells(city, ws[i]), -Safety(path + Cells(city, ws[i]))))
  }

  lemma FinishedConcat(city: City, path: seq<Street>, a: seq<seq<Loc>>, b: seq<seq<Loc>>)
    requires IsGrid(city) && Inside(city, a) && Inside(city, b)
    ensures Inside(city, a + b)
    ensures Finished(city, path, a + b) == Finished(city, path, a) + Finished(city, path, b)
  {
  }

  /** At the exit the one route left is the empty one. */
  lemma FinishedExit(city: City, path: seq<Street>)
    requires IsGrid(city)
    ensures Inside(city, [[]])
    ensures Finished(city, path, [[]]) == [Entry(path, -Safety(path))]
  {
    assert path + Cells(city, []) == path;
  }

  /** Routes whose first step is `x` finish the path extended by the street
      at `x`. */
  lemma FinishedPrefixed(city: City, path: seq<Street>, x: Loc)
    requires IsGrid(city) && Open(city, x)
    ensures Inside(city, Completions(city, x))
    ensures Inside(city, Prefixed(x, Completions(city, x)))
    ensures Finished(city, path, Prefixed(x, Completions(city, x)))
         == Finished(city, path + [At(city, x)], Completions(city, x))
  {
    var ws := Completions(city, x);
    var vs := Prefixed(x, ws);
    PrefixedCells(city, path, x);
    var lhs := Finished(city, path, vs);
    var rhs := Finished(city, path + [At(city, x)], ws);
    assert |lhs| == |rhs|;
    forall i | 0 <= i < |lhs|
      ensures lhs[i] == rhs[i]
    {
    }
  }

  /** What `safestPath1Helper` enqueues, step by step: at the exit the path
      itself, elsewhere what the open cell below and then the open cell to
      the right enqueue. */
  function Enumerated(city: City, path: seq<Street>, from: Loc): (r: seq<Entry<seq<Street>>>)
    requires IsGrid(city) && InBounds(city, from)
    ensures forall e :: e in r ==> path <= e.value && e.priority == -Safety(e.value)
    decreases Dist(city, from), 1
  {
    if from == Exit(city) then
      [Entry(path, -Safety(path))]
    else
      Continued(city, path, Down(from)) + Continued(city, path, Right(from))
  }

  /** What the helper enqueues after stepping onto `x`, nothing when `x` is
      not open. */
  function Continued(city: City, path: seq<Street>, x: Loc): (r: seq<Entry<seq<Street>>>)
    requires IsGrid(city)
    ensures forall e :: e in r ==> path <= e.value && e.priority == -Safety(e.value)
    decreases Dist(city, x) + 1, 0
  {
    if Open(city, x) then Enumerated(city, path + [At(city, x)], x) else []
  }

  /** The helper enqueues one entry per route from `from`, in `Completions`
      order, each the path continued along the route and keyed by its
      negated safety. */
  lemma {:induction false} EnumeratedRoutes(city: City, path: seq<Street>, from: Loc)
    requires IsGrid(city) && InBounds(city, from)
    ensures Inside(city, Completions(city, from))
    ensures Enumerated(city, path, from) == Finished(city, path, Completions(city, from))
    decreases Dist(city, from), 1
  {
    CompletionsInside(city, from);
    if from == Exit(city) {
      assert Completions(city, from) == [[]];
      FinishedExit(city, path);
    } else {
      ContinuedRoutes(city, path, Down(from));
      ContinuedRoutes(city, path, Right(from));
      CompletionsStep(city, from);
      FinishedConcat(city, path, Branch(city, Down(from)), Branch(city, Right(from)));
    }
  }

  /** After a step onto `x`, the helper enqueues one entry per route that
      starts with that step. */
  lemma {:induction false} ContinuedRoutes(city: City, path: seq<Street>, x: Loc)
    requires IsGrid(city)
    ensures Inside(city, Branch(city, x))
    ensures Continued(city, path, x) == Finished(city, path, Branch(city, x))
    decreases Dist(city, x) + 1, 0
  {
    if Open(city, x) {
      FinishedPrefixed(city, path, x);
      EnumeratedRoutes(city, path + [At(city, x)], x);
    } else {
      assert Finished(city, path, []) == [];
    }
  }

  /** `safestPath1Helper`: at the exit, enqueues the path keyed by its
      negated safety; elsewhere, recurses down and then right into open
      cells. */
  method SafestPath1Helper(city: City, row: int, col: int, path: seq<Street>, solutions: MinQueue<seq<Street>>)
    requires IsGrid(city) && InBounds(city, Loc(row, col))
    modifies solutions
    ensures solutions.entries == old(solutions.entries) + Enumerated(city, path, Loc(row, col))
    decreases Dist(city, Loc(row, col))
  {
    if row == Rows(city) - 1 && col == Cols(city) - 1 {
      var safety := PathSafety(path);
      solutions.Enqueue(path, -safety);
    } else {
      ghost var start := solutions.entries;
      ghost var from := Loc(row, col);
      var rightPath := path;
      var downPath := path;
      if row < Rows(city) - 1 && city[row + 1][col].sidewalk {
        downPath := downPath + [city[row + 1][col]];
        SafestPath1Helper(city, row + 1, col, downPath, solutions);
      } else {
        assert start + [] == start;
      }
      ghost var mid := solutions.entries;
      assert mid == start + Continued(city, path, Down(from));
      if col < Cols(city) - 1 && city[row][col + 1].sidewalk {
        rightPath := rightPath + [city[row][col + 1]];
        SafestPath1Helper(city, row, col + 1, rightPath, solutions);
      } else {
        assert mid + [] == mid;
      }
      assert solutions.entries == mid + Continued(city, path, Right(from));
      Associative(start, Continued(city, path, Down(from)), Continued(city, path, Right(from)));
    }
  }

  /** The entry of least key among those for the routes from the start is
      the safest route. */
  lemma LowestIsSafest(city: City, k: int)
    requires IsGrid(city)
    requires Inside(city, Completions(city, Loc(0, 0)))
    requires Lowest(Finished(city, [At(city, Loc(0, 0))], Completions(city, Loc(0, 0))), k)
    ensures var best := Finished(city, [At(city, Loc(0, 0))], Completions(city, Loc(0, 0)))[k].value;
      Safest(city, best) && |best| == Rows(city) + Cols(city) - 1
  {
    var ws := Completions(city, Loc(0, 0));
    var start := [At(city, Loc(0, 0))];
    var es := Finished(city, start, ws);
    forall i | 0 <= i < |ws|
      ensures Safety(start + Cells(city, ws[i])) <= Safety(es[k].value)
    {
      assert es[k].priority <= es[i].priority;
    }
    AmongIsSafest(city, es[k].value);
  }

  /** `safestPath1`: starts the path at the top-left street, enumerates, and
      dequeues the route of least negated safety. */
  method SafestPath1(city: City) returns (best: seq<Street>)
    requires IsGrid(city) && Reachable(city)
    ensures Safest(city, best) && |best| == Rows(city) + Cols(city) - 1
  {
    var solutions := new MinQueue<seq<Street>>();
    var path := [city[0][0]];
    SafestPath1Helper(city, 0, 0, path, solutions);
    EnumeratedRoutes(city, path, Loc(0, 0));
    ReachableCompletions(city);
    assert path == [At(city, Loc(0, 0))];
    assert solutions.entries == Finished(city, path, Completions(city, Loc(0, 0)));
    ghost var k;
    best, k := solutions.Dequeue();
    LowestIsSafest(city, k);
  }
}
