/** Solution 3 of street.cpp: a breadth-first worklist of partial routes,
    each a stack of grid locations; finished routes go into a priority
    queue keyed by negated safety, and the least key is the answer. */
module WorklistSearch {
  import opened Streets
  import opened Grids
  import opened Stacks
  import opened PriorityQueues
  import opened Seqs

  /** The order a `Set<GridLocation>` iterates in: by row, then by column. */
  predicate Before(a: Loc, b: Loc)
  {
    a.row < b.row || (a.row == b.row && a.col <= b.col)
  }

  /** Every nonempty set of locations has a first one. */
  lemma LeastExists(s: set<Loc>)
    requires s != {}
    ensures exists m :: m in s && forall o :: o in s ==> Before(m, o)
    decreases |s|
  {
    var x :| x in s;
    if s == {x} {
      assert Before(x, x);
    } else {
      var t := s - {x};
      LeastExists(t);
      var m :| m in t && forall o :: o in t ==> Before(m, o);
      if Before(m, x) {
        forall o | o in s
          ensures Before(m, o)
        {
          if o != x {
            assert o in t;
          }
        }
      } else {
        forall o | o in s
          ensures Before(x, o)
        {
          if o != x {
            assert o in t && Before(m, o);
          }
        }
      }
    }
  }

  /** The first location of a nonempty set. */
  ghost function Least(s: set<Loc>): (m: Loc)
    requires s != {}
    ensures m in s && forall o :: o in s ==> Before(m, o)
  {
    LeastExists(s);
    var m :| m in s && forall o :: o in s ==> Before(m, o);
    m
  }

  /** A location that comes before all others of the set is its first. */
  lemma LeastUnique(s: set<Loc>, m: Loc)
    requires m in s && forall o :: o in s ==> Before(m, o)
    ensures Least(s) == m
  {
    var l := Least(s);
    assert Before(l, m) && Before(m, l);
  }

  /** The locations of a set in the order the set iterates them. */
  ghost function InOrder(s: set<Loc>): seq<Loc>
    decreases |s|
  {
    if s == {} then [] else [Least(s)] + InOrder(s - {Least(s)})
  }

  /** `InOrder` lists every location of the set once, in increasing order. */
  lemma {:induction false} InOrderSet(s: set<Loc>)
    ensures |InOrder(s)| == |s|
    ensures forall m :: m in InOrder(s) <==> m in s
    ensures forall i, j :: 0 <= i < j < |InOrder(s)| ==> Before(InOrder(s)[i], InOrder(s)[j])
    decreases |s|
  {
    if s != {} {
      var m := Least(s);
      var r := InOrder(s - {m});
      InOrderSet(s - {m});
      assert InOrder(s) == [m] + r;
      forall i, j | 0 <= i < j < |InOrder(s)|
        ensures Before(InOrder(s)[i], InOrder(s)[j])
      {
        if i > 0 {
          assert InOrder(s)[i] == r[i - 1] && InOrder(s)[j] == r[j - 1];
        } else {
          assert InOrder(s)[j] == r[j - 1] && r[j - 1] in r;
        }
      }
    }
  }

  /** Taking the first location off a set: when it is not checked it is the
      first of the unchecked ones, else they are unchanged. */
  lemma InOrderTake(s: set<Loc>, checked: set<Loc>, move: Loc)
    requires move in s && forall o :: o in s ==> Before(move, o)
    ensures move !in checked ==> InOrder(s - checked) == [move] + InOrder(s - {move} - checked)
    ensures move in checked ==> InOrder(s - checked) == InOrder(s - {move} - checked)
  {
    if move !in checked {
      LeastUnique(s - checked, move);
      assert s - checked - {move} == s - {move} - checked;
    } else {
      assert s - checked == s - {move} - checked;
    }
  }

  /** `generateValidMoves`: of the location to the right and the one below,
      in that order, those in the grid whose street is a sidewalk. */
  method GenerateValidMoves(city: City, cur: Loc) returns (neighbors: set<Loc>)
    requires IsGrid(city)
    ensures forall m :: m in neighbors <==> Step(cur, m) && Open(city, m)
    ensures |neighbors| <= 2
  {
    var possible := [Loc(cur.row, cur.col + 1), Loc(cur.row + 1, cur.col)];
    neighbors := {};
    for i := 0 to |possible|
      invariant forall m :: m in neighbors <==> m in possible[..i] && Open(city, m)
      invariant |neighbors| <= i
    {
      var location := possible[i];
      assert possible[..i + 1] == possible[..i] + [location];
      if InBounds(city, location) && city[location.row][location.col].sidewalk {
        neighbors := neighbors + {location};
      }
    }
    assert possible[..|possible|] == possible;
  }

  /** Popping location `j - 1` off the stack `s[..j]` adds its street in
      front of the streets above it. */
  lemma CellsPop(city: City, s: seq<Loc>, j: int)
    requires IsGrid(city) && AllIn(city, s) && 0 < j <= |s|
    ensures AllIn(city, s[j..]) && AllIn(city, s[j - 1..])
    ensures Cells(city, s[j - 1..]) == [At(city, s[j - 1])] + Cells(city, s[j..])
  {
    assert s[j - 1..] == [s[j - 1]] + s[j..];
    CellsCons(city, s[j - 1], s[j..]);
  }

  /** `getGridLocPathSafety`: pops the stack empty, adding up the ratings
      of the streets at its locations. */
  method GridLocPathSafety(path: seq<Loc>, city: City) returns (output: int)
    requires IsGrid(city) && AllIn(city, path)
    ensures output == Safety(Cells(city, path))
  {
    output := 0;
    var stack := path;
    while stack != []
      invariant stack == path[..|stack|]
      invariant AllIn(city, path[|stack|..])
      invariant output == Safety(Cells(city, path[|stack|..]))
      decreases |stack|
    {
      var loc := stack[|stack| - 1];
      CellsPop(city, path, |stack|);
      stack := stack[..|stack| - 1];
      output := output + city[loc.row][loc.col].rating;
    }
  }

  /** The stacks `curr` extended by each of `moves`, in order. */
  function Pushes(curr: seq<Loc>, moves: seq<Loc>): (r: seq<seq<Loc>>)
    ensures |r| == |moves|
  {
    seq(|moves|, i requires 0 <= i < |moves| => curr + [moves[i]])
  }

  /** The loop over `valid_moves` in `safestPath3Helper`: in set order,
      every move not yet checked is pushed onto a copy of `curr`, which is
      enqueued. */
  method Expand(curr: seq<Loc>, moves: set<Loc>, checked: set<Loc>, paths: seq<seq<Loc>>)
    returns (next: seq<seq<Loc>>)
    ensures next == paths + Pushes(curr, InOrder(moves - checked))
  {
    next := paths;
    ghost var pushed: seq<Loc> := [];
    var pending := moves;
    while pending != {}
      invariant next == paths + Pushes(curr, pushed)
      invariant InOrder(moves - checked) == pushed + InOrder(pending - checked)
      decreases |pending|
    {
      LeastExists(pending);
      var move :| move in pending && forall o :: o in pending ==> Before(move, o);
      InOrderTake(pending, checked, move);
      pending := pending - {move};
      if move !in checked {
        var newPath := curr + [move];
        assert Pushes(curr, pushed + [move]) == Pushes(curr, pushed) + [newPath];
        Associative(pushed, [move], InOrder(pending - checked));
        Associative(paths, Pushes(curr, pushed), [newPath]);
        next := next + [newPath];
        pushed := pushed + [move];
      }
    }
    assert pushed + [] == pushed;
  }

  /** The moves `Expand` takes from `generateValidMoves`: at most two, each
      a valid move, and every valid move not checked. */
  lemma MovesInOrder(city: City, top: Loc, moves: set<Loc>, checked: set<Loc>)
    requires IsGrid(city)
    requires forall m :: m in moves <==> Step(top, m) && Open(city, m)
    requires |moves| <= 2
    ensures var pushed := InOrder(moves - checked);
      && |pushed| <= 2
      && (forall i :: 0 <= i < |pushed| ==> Step(top, pushed[i]) && Open(city, pushed[i]))
      && (forall m :: Step(top, m) && Open(city, m) && m !in checked ==> m in pushed)
  {
    InOrderSet(moves - checked);
    assert moves - checked <= moves;
    var pushed := InOrder(moves - checked);
    forall i | 0 <= i < |pushed|
      ensures Step(top, pushed[i]) && Open(city, pushed[i])
    {
      assert pushed[i] in pushed;
    }
  }

  /** The worklist: stacks whose length is `lo + 1` or `lo + 2`, shorter ones
      first. */
  predicate Levels(city: City, lo: int, paths: seq<seq<Loc>>)
    requires IsGrid(city)
  {
    && (forall k :: 0 <= k < |paths| ==> IsStack(city, paths[k]) && lo + 1 <= |paths[k]| <= lo + 2)
    && (forall j, k :: 0 <= j < k < |paths| ==> |paths[j]| <= |paths[k]|)
  }

  /** Every checked location lies on a diagonal up to `lo`. */
  predicate Checked(checked: set<Loc>, lo: int)
  {
    forall x :: x in checked ==> x.row + x.col <= lo
  }

  /** The priority queue holds finished routes keyed by negated safety. */
  predicate Solutions(city: City, entries: seq<Entry<seq<Loc>>>)
    requires IsGrid(city)
  {
    forall j :: 0 <= j < |entries| ==>
      IsRouteStack(city, entries[j].value) && entries[j].priority == -Safety(Cells(city, entries[j].value))
  }

  /** A finished route enqueued with its negated safety keeps the priority
      queue as it should be. */
  lemma SolutionsAdd(city: City, entries: seq<Entry<seq<Loc>>>, route: seq<Loc>)
    requires IsGrid(city) && Solutions(city, entries) && IsRouteStack(city, route)
    ensures Solutions(city, entries + [Entry(route, -Safety(Cells(city, route)))])
  {
  }

  /** The route `r` is in the priority queue or continues a stack still in
      the worklist. */
  ghost predicate Covered(r: seq<Loc>, paths: seq<seq<Loc>>, entries: seq<Entry<seq<Loc>>>)
  {
    || (exists j :: 0 <= j < |entries| && entries[j].value == r)
    || (exists k :: 0 <= k < |paths| && paths[k] <= r)
  }

  /** No route is lost. */
  ghost predicate Covering(city: City, paths: seq<seq<Loc>>, entries: seq<Entry<seq<Loc>>>)
    requires IsGrid(city)
  {
    forall r :: IsRouteStack(city, r) ==> Covered(r, paths, entries)
  }

  /** The search starts from the stack holding the entrance alone. */
  lemma Started(city: City)
    requires IsGrid(city)
    ensures Levels(city, 0, [[Loc(0, 0)]]) && Checked({}, 0)
    ensures Solutions(city, []) && Covering(city, [[Loc(0, 0)]], [])
  {
    assert IsStack(city, [Loc(0, 0)]);
    forall r | IsRouteStack(city, r)
      ensures Covered(r, [[Loc(0, 0)]], [])
    {
      assert [[Loc(0, 0)]][0] <= r;
    }
  }

  /** `checked_moves` never prunes a move: the worklist is taken level by
      level, so a move lies on a diagonal beyond every checked location. */
  lemma NeverPruned(city: City, lo: int, paths: seq<seq<Loc>>, checked: set<Loc>, m: Loc)
    requires IsGrid(city) && Levels(city, lo, paths) && Checked(checked, lo) && paths != []
    requires Step(Top(paths[0]), m)
    ensures m !in checked + {Top(paths[0])}
  {
    StackLevel(city, paths[0], |paths[0]| - 1);
  }

  /** Taking the front stack and enqueueing its extensions keeps the levels. */
  lemma LevelsAdvance(city: City, lo: int, paths: seq<seq<Loc>>, checked: set<Loc>, pushed: seq<Loc>)
    requires IsGrid(city) && Levels(city, lo, paths) && Checked(checked, lo) && paths != []
    requires forall i :: 0 <= i < |pushed| ==> Step(Top(paths[0]), pushed[i]) && Open(city, pushed[i])
    ensures Levels(city, |paths[0]| - 1, paths[1..] + Pushes(paths[0], pushed))
    ensures Checked(checked + {Top(paths[0])}, |paths[0]| - 1)
  {
    var curr := paths[0];
    var rest := paths[1..];
    var next := rest + Pushes(curr, pushed);
    StackLevel(city, curr, |curr| - 1);
    forall k | 0 <= k < |next|
      ensures IsStack(city, next[k]) && |curr| <= |next[k]| <= |curr| + 1
    {
      if k < |rest| {
        assert next[k] == paths[k + 1];
      } else {
        assert next[k] == curr + [pushed[k - |rest|]];
        StackPush(city, curr, pushed[k - |rest|]);
      }
    }
    forall j, k | 0 <= j < k < |next|
      ensures |next[j]| <= |next[k]|
    {
      if k < |rest| {
        assert next[j] == paths[j + 1] && next[k] == paths[k + 1];
      } else if j < |rest| {
        assert next[j] == paths[j + 1];
      }
    }
  }

  /** Taking the front stack keeps every route covered: a finished stack
      moves into the priority queue, any other continues in one of the
      extensions enqueued for it. */
  lemma CoveringAdvance(city: City, paths: seq<seq<Loc>>, entries: seq<Entry<seq<Loc>>>,
                        entries2: seq<Entry<seq<Loc>>>, pushed: seq<Loc>)
    requires IsGrid(city) && paths != [] && IsStack(city, paths[0])
    requires Covering(city, paths, entries)
    requires |entries| <= |entries2| && entries2[..|entries|] == entries
    requires Top(paths[0]) == Exit(city) ==> |entries2| > |entries| && entries2[|entries|].value == paths[0]
    requires Top(paths[0]) != Exit(city) ==>
      forall m :: Step(Top(paths[0]), m) && Open(city, m) ==> m in pushed
    ensures Covering(city, paths[1..] + Pushes(paths[0], pushed), entries2)
  {
    var curr := paths[0];
    var rest := paths[1..];
    var next := rest + Pushes(curr, pushed);
    forall r | IsRouteStack(city, r)
      ensures Covered(r, next, entries2)
    {
      assert Covered(r, paths, entries);
      if j :| 0 <= j < |entries| && entries[j].value == r {
        assert entries2[j] == entries[j];
      } else {
        var k :| 0 <= k < |paths| && paths[k] <= r;
        if k > 0 {
          assert next[k - 1] == paths[k];
        } else {
          RoutePrefix(city, curr, r);
          if Top(curr) == Exit(city) {
            assert entries2[|entries|].value == r;
          } else {
            var i :| 0 <= i < |pushed| && pushed[i] == r[|curr|];
            assert next[|rest| + i] == curr + [r[|curr|]];
          }
        }
      }
    }
  }

  /** What holds each time the search takes the next stack: the worklist
      is level by level, the checked locations lie behind it, the priority
      queue holds finished routes keyed by negated safety, and every route
      is queued or still ahead. */
  ghost predicate Frontier(city: City, lo: int, paths: seq<seq<Loc>>, checked: set<Loc>, entries: seq<Entry<seq<Loc>>>)
    requires IsGrid(city)
  {
    Levels(city, lo, paths) && Checked(checked, lo) && Solutions(city, entries) && Covering(city, paths, entries)
  }

  /** One round of the search keeps the frontier: the front stack is taken
      and its top checked; at the exit it is enqueued with its negated
      safety, elsewhere every open neighbour not checked is pushed onto a
      copy of it and enqueued. */
  lemma Advance(city: City, lo: int, paths: seq<seq<Loc>>, checked: set<Loc>,
                entries: seq<Entry<seq<Loc>>>, entries2: seq<Entry<seq<Loc>>>, pushed: seq<Loc>)
    requires IsGrid(city) && paths != [] && Frontier(city, lo, paths, checked, entries)
    requires Top(paths[0]) == Exit(city) ==>
      pushed == [] && entries2 == entries + [Entry(paths[0], -Safety(Cells(city, paths[0])))]
    requires Top(paths[0]) != Exit(city) ==>
      && entries2 == entries
      && (forall i :: 0 <= i < |pushed| ==> Step(Top(paths[0]), pushed[i]) && Open(city, pushed[i]))
      && (forall m :: Step(Top(paths[0]), m) && Open(city, m) && m !in checked + {Top(paths[0])} ==> m in pushed)
    ensures Frontier(city, |paths[0]| - 1, paths[1..] + Pushes(paths[0], pushed), checked + {Top(paths[0])}, entries2)
  {
    var curr := paths[0];
    LevelsAdvance(city, lo, paths, checked, pushed);
    if Top(curr) == Exit(city) {
      SolutionsAdd(city, entries, curr);
      assert entries2[..|entries|] == entries;
    } else {
      forall m | Step(Top(curr), m) && Open(city, m)
        ensures m in pushed
      {
        NeverPruned(city, lo, paths, checked, m);
      }
      assert entries2[..|entries|] == entries;
    }
    CoveringAdvance(city, paths, entries, entries2, pushed);
  }

  /** Every route stack is the entrance followed by a walk, and back. */
  lemma WalkStack(city: City, w: seq<Loc>)
    requires IsGrid(city) && IsWalk(city, Loc(0, 0), w)
    ensures IsRouteStack(city, [Loc(0, 0)] + w)
  {
    var s := [Loc(0, 0)] + w;
    assert s[1..] == w;
    TrailIn(city, Loc(0, 0), w);
    CellsCons(city, Loc(0, 0), w);
  }

  /** Once the worklist is empty, the least key in the priority queue
      belongs to a safest route. */
  lemma LowestRouteIsSafest(city: City, entries: seq<Entry<seq<Loc>>>, k: int)
    requires IsGrid(city) && Solutions(city, entries) && Covering(city, [], entries)
    requires Lowest(entries, k)
    ensures IsRouteStack(city, entries[k].value) && Safest(city, Cells(city, entries[k].value))
  {
    var s := entries[k].value;
    StackRoute(city, s);
    forall w | IsWalk(city, Loc(0, 0), w)
      ensures Safety(RouteOf(city, w)) <= Safety(Cells(city, s))
    {
      WalkStack(city, w);
      var r := [Loc(0, 0)] + w;
      assert Covered(r, [], entries);
      var j :| 0 <= j < |entries| && entries[j].value == r;
      assert entries[k].priority <= entries[j].priority;
    }
  }

  /** A route exists only if the priority queue is not empty at the end. */
  lemma ReachableFound(city: City, entries: seq<Entry<seq<Loc>>>)
    requires IsGrid(city) && Reachable(city) && Covering(city, [], entries)
    ensures entries != []
  {
    var w :| IsWalk(city, Loc(0, 0), w);
    WalkStack(city, w);
    assert Covered([Loc(0, 0)] + w, [], entries);
  }

  function Pow3(n: nat): (r: nat)
    ensures r >= 1
  {
    if n == 0 then 1 else 3 * Pow3(n - 1)
  }

  /** What a stack of length `|p|` can still add to the worklist: a stack
      one step longer weighs a third as much. */
  function Cost(d: int, p: seq<Loc>): nat
  {
    if |p| <= d then Pow3(d - |p|) else 0
  }

  function Weight(d: int, paths: seq<seq<Loc>>): nat
  {
    if paths == [] then 0 else Cost(d, paths[0]) + Weight(d, paths[1..])
  }

  lemma {:induction false} WeightAppend(d: int, a: seq<seq<Loc>>, b: seq<seq<Loc>>)
    ensures Weight(d, a + b) == Weight(d, a) + Weight(d, b)
    decreases |a|
  {
    if a == [] {
      assert a + b == b;
    } else {
      assert (a + b)[1..] == a[1..] + b;
      WeightAppend(d, a[1..], b);
    }
  }

  lemma {:induction false} WeightPushes(d: int, curr: seq<Loc>, moves: seq<Loc>)
    ensures Weight(d, Pushes(curr, moves)) == |moves| * Cost(d, curr + [Loc(0, 0)])
    decreases |moves|
  {
    if moves != [] {
      assert Pushes(curr, moves)[1..] == Pushes(curr, moves[1..]);
      WeightPushes(d, curr, moves[1..]);
    }
  }

  /** Replacing the front stack by at most two stacks one step longer makes
      the worklist lighter. */
  lemma WeightAdvance(d: int, paths: seq<seq<Loc>>, pushed: seq<Loc>)
    requires paths != [] && |paths[0]| < d && |pushed| <= 2
    ensures Weight(d, paths[1..] + Pushes(paths[0], pushed)) < Weight(d, paths)
  {
    WeightAppend(d, paths[1..], Pushes(paths[0], pushed));
    WeightPushes(d, paths[0], pushed);
  }

  /** `safestPath3Helper`: the breadth-first search from the entrance. Each
      stack taken from the worklist has its top marked checked; a stack at
      the exit goes into the priority queue keyed by its negated safety,
      any other is extended by each valid move not checked yet. At the end
      the stack of least key is dequeued. A city without a route leaves the
      priority queue empty, which the source does not handle. */
  method SafestPath3Helper(city: City) returns (route: seq<Loc>)
    requires IsGrid(city) && Reachable(city)
    ensures IsRouteStack(city, route) && Safest(city, Cells(city, route))
  {
    var path := [Loc(0, 0)];
    var solutions := new MinQueue<seq<Loc>>();
    var paths := [path];
    var exit := Loc(Rows(city) - 1, Cols(city) - 1);
    var checked: set<Loc> := {};
    ghost var lo := 0;
    ghost var d := Rows(city) + Cols(city);
    Started(city);
    while |paths| > 0
      invariant Frontier(city, lo, paths, checked, solutions.entries)
      decreases Weight(d, paths)
    {
      ghost var before, checkedBefore, start := paths, checked, solutions.entries;
      var curr := paths[0];
      paths := paths[1..];
      StackLength(city, curr);
      var top := curr[|curr| - 1];
      checked := checked + {top};
      ghost var pushed: seq<Loc> := [];
      if top == exit {
        var safety := GridLocPathSafety(curr, city);
        solutions.Enqueue(curr, -safety);
        assert paths == before[1..] + Pushes(curr, pushed) by {
          assert Pushes(curr, pushed) == [];
        }
      } else {
        var validMoves := GenerateValidMoves(city, top);
        paths := Expand(curr, validMoves, checked, paths);
        pushed := InOrder(validMoves - checked);
        MovesInOrder(city, top, validMoves, checked);
      }
      Advance(city, lo, before, checkedBefore, start, solutions.entries, pushed);
      WeightAdvance(d, before, pushed);
      lo := |curr| - 1;
    }
    ReachableFound(city, solutions.entries);
    ghost var finished := solutions.entries;
    ghost var k;
    route, k := solutions.Dequeue();
    LowestRouteIsSafest(city, finished, k);
  }

  /** `safestPath3`: pops the stack the helper returns, inserting each
      location's street at the front. */
  method SafestPath3(city: City) returns (output: seq<Street>)
    requires IsGrid(city) && Reachable(city)
    ensures Safest(city, output) && |output| == Rows(city) + Cols(city) - 1
  {
    var stackOutput := SafestPath3Helper(city);
    output := [];
    var stack := stackOutput;
    while stack != []
      invariant stack == stackOutput[..|stack|]
      invariant AllIn(city, stackOutput[|stack|..])
      invariant output == Cells(city, stackOutput[|stack|..])
      decreases |stack|
    {
      var loc := stack[|stack| - 1];
      CellsPop(city, stackOutput, |stack|);
      stack := stack[..|stack| - 1];
      output := [city[loc.row][loc.col]] + output;
    }
    assert stackOutput[0..] == stackOutput;
    StackLength(city, stackOutput);
  }
}
