/** The city grid of street.cpp and the routes the three solvers search:
    from the top-left corner to the bottom-right one, each step one cell
    right or one cell down onto a sidewalk. */
module Grids {
  import opened Streets

  /** A `Grid<street>`, row by row. */
  type City = seq<seq<Street>>

  /** At least one row, and all rows of the same positive length. */
  predicate IsGrid(city: City)
  {
    |city| > 0 && |city[0]| > 0 && forall r :: 0 <= r < |city| ==> |city[r]| == |city[0]|
  }

  function Rows(city: City): nat
  {
    |city|
  }

  function Cols(city: City): nat
    requires IsGrid(city)
  {
    |city[0]|
  }

  /** A `GridLocation`. */
  datatype Loc = Loc(row: int, col: int)

  /** `Grid::inBounds`. */
  predicate InBounds(city: City, l: Loc)
    requires IsGrid(city)
  {
    0 <= l.row < Rows(city) && 0 <= l.col < Cols(city)
  }

  /** The street at a location, `city[row][col]`. */
  function At(city: City, l: Loc): Street
    requires IsGrid(city) && InBounds(city, l)
  {
    city[l.row][l.col]
  }

  /** A location a route may step onto: in the grid and a sidewalk. */
  predicate Open(city: City, l: Loc)
    requires IsGrid(city)
  {
    InBounds(city, l) && At(city, l).sidewalk
  }

  /** The bottom-right corner every route ends at. */
  function Exit(city: City): Loc
    requires IsGrid(city)
  {
    Loc(Rows(city) - 1, Cols(city) - 1)
  }

  function Right(l: Loc): Loc
  {
    Loc(l.row, l.col + 1)
  }

  function Down(l: Loc): Loc
  {
    Loc(l.row + 1, l.col)
  }

  /** One move of a route. */
  predicate Step(a: Loc, b: Loc)
  {
    b == Right(a) || b == Down(a)
  }

  /** The locations after `from` form a trail: each one step right or down
      from the one before, onto an open cell. `from` itself is not checked:
      the start of the city is entered whatever it is. */
  predicate IsTrail(city: City, from: Loc, w: seq<Loc>)
    requires IsGrid(city)
  {
    && (forall i :: 0 <= i < |w| ==> Open(city, w[i]))
    && (w != [] ==> Step(from, w[0]))
    && (forall i :: 0 < i < |w| ==> Step(w[i - 1], w[i]))
  }

  /** Where a trail from `from` ends. */
  function End(from: Loc, w: seq<Loc>): Loc
  {
    if w == [] then from else w[|w| - 1]
  }

  /** A trail from `from` that reaches the exit. */
  predicate IsWalk(city: City, from: Loc, w: seq<Loc>)
    requires IsGrid(city)
  {
    IsTrail(city, from, w) && End(from, w) == Exit(city)
  }

  /** Some route leads from the start to the exit. */
  ghost predicate Reachable(city: City)
    requires IsGrid(city)
  {
    exists w :: IsWalk(city, Loc(0, 0), w)
  }

  /** Every location of `w` lies in the grid. */
  predicate AllIn(city: City, w: seq<Loc>)
    requires IsGrid(city)
  {
    forall i :: 0 <= i < |w| ==> InBounds(city, w[i])
  }

  /** Every sequence of `ws` lies in the grid. */
  predicate Inside(city: City, ws: seq<seq<Loc>>)
    requires IsGrid(city)
  {
    forall i :: 0 <= i < |ws| ==> AllIn(city, ws[i])
  }

  /** The streets at a sequence of locations. */
  function Cells(city: City, w: seq<Loc>): seq<Street>
    requires IsGrid(city) && AllIn(city, w)
  {
    seq(|w|, i requires 0 <= i < |w| => At(city, w[i]))
  }

  /** The streets of the route that starts at the top-left corner and then
      follows `w`. */
  function RouteOf(city: City, w: seq<Loc>): seq<Street>
    requires IsGrid(city) && IsTrail(city, Loc(0, 0), w)
  {
    Cells(city, [Loc(0, 0)] + w)
  }

  /** `best` is the street sequence of a route, and no route is safer. */
  ghost predicate Safest(city: City, best: seq<Street>)
    requires IsGrid(city)
  {
    && (exists w :: IsWalk(city, Loc(0, 0), w) && best == RouteOf(city, w))
    && (forall w :: IsWalk(city, Loc(0, 0), w) ==> Safety(RouteOf(city, w)) <= Safety(best))
  }

  /** Cells of a sequence that starts with `l`. */
  lemma CellsCons(city: City, l: Loc, w: seq<Loc>)
    requires IsGrid(city) && InBounds(city, l) && AllIn(city, w)
    ensures AllIn(city, [l] + w) && Cells(city, [l] + w) == [At(city, l)] + Cells(city, w)
  {
  }

  /** Extending a trail by one step. */
  lemma TrailCons(city: City, from: Loc, x: Loc, w: seq<Loc>)
    requires IsGrid(city) && Step(from, x) && Open(city, x) && IsTrail(city, x, w)
    ensures IsTrail(city, from, [x] + w) && End(from, [x] + w) == End(x, w)
  {
    var v := [x] + w;
    forall i | 0 < i < |v|
      ensures Step(v[i - 1], v[i])
    {
      assert v[i] == w[i - 1];
      if i > 1 {
        assert v[i - 1] == w[i - 2];
      }
    }
  }

  /** The rest of a trail after its first step. */
  lemma TrailTail(city: City, from: Loc, w: seq<Loc>)
    requires IsGrid(city) && IsTrail(city, from, w) && w != []
    ensures Step(from, w[0]) && Open(city, w[0])
    ensures IsTrail(city, w[0], w[1..]) && End(w[0], w[1..]) == End(from, w)
  {
    var v := w[1..];
    forall i | 0 < i < |v|
      ensures Step(v[i - 1], v[i])
    {
      assert v[i] == w[i + 1] && v[i - 1] == w[i];
    }
  }

  /** A trail stays in the grid. */
  lemma TrailIn(city: City, from: Loc, w: seq<Loc>)
    requires IsGrid(city) && IsTrail(city, from, w)
    ensures AllIn(city, w)
  {
  }

  /** The distance, in steps, from a location to the exit. */
  function Dist(city: City, l: Loc): int
    requires IsGrid(city)
  {
    (Rows(city) - 1 - l.row) + (Cols(city) - 1 - l.col)
  }

  /** Every trail step moves one diagonal further from the start, so a walk
      from `from` has exactly `Dist(from)` steps. */
  lemma {:induction false} WalkLength(city: City, from: Loc, w: seq<Loc>)
    requires IsGrid(city) && IsWalk(city, from, w)
    ensures |w| == Dist(city, from)
    decreases |w|
  {
    if w != [] {
      TrailTail(city, from, w);
      WalkLength(city, w[0], w[1..]);
    }
  }

  /** Each sequence of `ws` with `x` in front. */
  function Prefixed(x: Loc, ws: seq<seq<Loc>>): seq<seq<Loc>>
  {
    seq(|ws|, i requires 0 <= i < |ws| => [x] + ws[i])
  }

  /** Walks from `x` with `x` in front are walks from `from`. */
  lemma PrefixedWalks(city: City, from: Loc, x: Loc, ws: seq<seq<Loc>>)
    requires IsGrid(city) && Step(from, x) && Open(city, x)
    requires forall w :: w in ws ==> IsWalk(city, x, w)
    ensures forall v :: v in Prefixed(x, ws) ==> IsWalk(city, from, v)
  {
    var vs := Prefixed(x, ws);
    forall v | v in vs
      ensures IsWalk(city, from, v)
    {
      var i :| 0 <= i < |vs| && vs[i] == v;
      assert ws[i] in ws;
      TrailCons(city, from, x, ws[i]);
    }
  }

  /** Every route from `from` to the exit, in the order `safestPath1Helper`
      finds them: those going down first, then those going right. */
  function Completions(city: City, from: Loc): seq<seq<Loc>>
    requires IsGrid(city) && InBounds(city, from)
    decreases Dist(city, from), 1
  {
    if from == Exit(city) then [[]] else Branch(city, Down(from)) + Branch(city, Right(from))
  }

  /** The routes whose first step is onto `x`: none when `x` is not open. */
  function Branch(city: City, x: Loc): seq<seq<Loc>>
    requires IsGrid(city)
    decreases Dist(city, x) + 1, 0
  {
    if Open(city, x) then Prefixed(x, Completions(city, x)) else []
  }

  /** Away from the exit, the routes going down and then those going
      right. */
  lemma CompletionsStep(city: City, from: Loc)
    requires IsGrid(city) && InBounds(city, from) && from != Exit(city)
    ensures Completions(city, from) == Branch(city, Down(from)) + Branch(city, Right(from))
  {
  }

  /** `Completions` holds only routes. */
  lemma {:induction false} CompletionsWalks(city: City, from: Loc)
    requires IsGrid(city) && InBounds(city, from)
    ensures forall w :: w in Completions(city, from) ==> IsWalk(city, from, w)
    decreases Dist(city, from)
  {
    if from != Exit(city) {
      var down, right := Down(from), Right(from);
      if Open(city, down) {
        CompletionsWalks(city, down);
        PrefixedWalks(city, from, down, Completions(city, down));
      }
      if Open(city, right) {
        CompletionsWalks(city, right);
        PrefixedWalks(city, from, right, Completions(city, right));
      }
    }
  }

  /** Routes stay in the grid. */
  lemma CompletionsInside(city: City, from: Loc)
    requires IsGrid(city) && InBounds(city, from)
    ensures Inside(city, Completions(city, from))
  {
    var ws := Completions(city, from);
    CompletionsWalks(city, from);
    forall i | 0 <= i < |ws|
      ensures AllIn(city, ws[i])
    {
      assert ws[i] in ws;
      TrailIn(city, from, ws[i]);
    }
  }

  /** `Completions` misses no route. */
  lemma {:induction false} CompletionsComplete(city: City, from: Loc, w: seq<Loc>)
    requires IsGrid(city) && InBounds(city, from) && IsWalk(city, from, w)
    ensures w in Completions(city, from)
    decreases |w|
  {
    if w == [] {
      assert from == Exit(city);
    } else {
      TrailTail(city, from, w);
      var x, rest := w[0], w[1..];
      assert w == [x] + rest;
      if from == Exit(city) {
        assert false;
      }
      CompletionsComplete(city, x, rest);
      var ws := Completions(city, x);
      var i :| 0 <= i < |ws| && ws[i] == rest;
      var vs := Prefixed(x, ws);
      assert vs[i] == w;
      if x == Down(from) {
        assert w in vs;
      } else {
        assert w in vs;
      }
    }
  }

  /** Routes exist exactly when `Completions` from the start is not empty. */
  lemma ReachableCompletions(city: City)
    requires IsGrid(city)
    ensures Reachable(city) <==> Completions(city, Loc(0, 0)) != []
  {
    if Reachable(city) {
      var w :| IsWalk(city, Loc(0, 0), w);
      CompletionsComplete(city, Loc(0, 0), w);
    }
    if Completions(city, Loc(0, 0)) != [] {
      CompletionsWalks(city, Loc(0, 0));
      assert IsWalk(city, Loc(0, 0), Completions(city, Loc(0, 0))[0]);
    }
  }

  /** `res` is `path` continued along one of the routes `ws`, and no route of
      `ws` makes a safer continuation. */
  ghost predicate SafestAmong(city: City, path: seq<Street>, ws: seq<seq<Loc>>, res: seq<Street>)
    requires IsGrid(city) && Inside(city, ws)
  {
    && (exists i :: 0 <= i < |ws| && res == path + Cells(city, ws[i]))
    && (forall i :: 0 <= i < |ws| ==> Safety(path + Cells(city, ws[i])) <= Safety(res))
  }

  /** The route prefixed with `x` continues `path` as the route itself
      continues `path` extended by the street at `x`. */
  lemma PrefixedCells(city: City, path: seq<Street>, x: Loc)
    requires IsGrid(city) && Open(city, x)
    ensures Inside(city, Completions(city, x))
    ensures var vs := Prefixed(x, Completions(city, x));
      && Inside(city, vs)
      && forall i :: 0 <= i < |vs| ==>
           path + Cells(city, vs[i]) == (path + [At(city, x)]) + Cells(city, Completions(city, x)[i])
  {
    var ws := Completions(city, x);
    CompletionsInside(city, x);
    var vs := Prefixed(x, ws);
    forall i | 0 <= i < |vs|
      ensures AllIn(city, vs[i])
      ensures path + Cells(city, vs[i]) == (path + [At(city, x)]) + Cells(city, ws[i])
    {
      CellsCons(city, x, ws[i]);
      assert path + ([At(city, x)] + Cells(city, ws[i])) == (path + [At(city, x)]) + Cells(city, ws[i]);
    }
  }

  /** The best continuation of the first street among all routes from the
      start is a safest route. */
  lemma AmongIsSafest(city: City, res: seq<Street>)
    requires IsGrid(city) && Inside(city, Completions(city, Loc(0, 0)))
    requires SafestAmong(city, [At(city, Loc(0, 0))], Completions(city, Loc(0, 0)), res)
    ensures Safest(city, res) && |res| == Rows(city) + Cols(city) - 1
  {
    var ws := Completions(city, Loc(0, 0));
    var start := [At(city, Loc(0, 0))];
    CompletionsWalks(city, Loc(0, 0));
    forall i | 0 <= i < |ws|
      ensures IsWalk(city, Loc(0, 0), ws[i])
      ensures start + Cells(city, ws[i]) == RouteOf(city, ws[i])
    {
      assert ws[i] in ws;
      CellsCons(city, Loc(0, 0), ws[i]);
    }
    var k :| 0 <= k < |ws| && res == start + Cells(city, ws[k]);
    WalkLength(city, Loc(0, 0), ws[k]);
    forall w | IsWalk(city, Loc(0, 0), w)
      ensures Safety(RouteOf(city, w)) <= Safety(res)
    {
      CompletionsComplete(city, Loc(0, 0), w);
      var j :| 0 <= j < |ws| && ws[j] == w;
      assert Safety(start + Cells(city, ws[j])) <= Safety(res);
    }
  }
}
