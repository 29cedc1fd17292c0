/** Routes as solution 3 of street.cpp holds them: a `Stack<GridLocation>`
    with the start at the bottom and the latest location on top. */
module Stacks {
  import opened Grids

  /** The location on top of a stack. */
  function Top(s: seq<Loc>): Loc
    requires s != []
  {
    s[|s| - 1]
  }

  /** A stack of grid locations that starts at the top-left corner and
      then follows a trail. */
  predicate IsStack(city: City, s: seq<Loc>)
    requires IsGrid(city)
  {
    && |s| >= 1
    && s[0] == Loc(0, 0)
    && AllIn(city, s)
    && IsTrail(city, Loc(0, 0), s[1..])
  }

  /** A stack that has reached the exit: a whole route. */
  predicate IsRouteStack(city: City, s: seq<Loc>)
    requires IsGrid(city)
  {
    IsStack(city, s) && Top(s) == Exit(city)
  }

  /** Location `i` of a trail lies on diagonal `i + 1` counted from its
      origin. */
  lemma {:induction false} TrailLevel(city: City, from: Loc, w: seq<Loc>, i: int)
    requires IsGrid(city) && IsTrail(city, from, w) && 0 <= i < |w|
    ensures w[i].row + w[i].col == from.row + from.col + i + 1
    ensures w[i].row >= from.row && w[i].col >= from.col
    decreases i
  {
    if i > 0 {
      TrailLevel(city, from, w, i - 1);
      assert Step(w[i - 1], w[i]);
    }
  }

  /** Location `j` of a stack lies on diagonal `j`. */
  lemma StackLevel(city: City, s: seq<Loc>, j: int)
    requires IsGrid(city) && IsStack(city, s) && 0 <= j < |s|
    ensures s[j].row + s[j].col == j
  {
    if j > 0 {
      TrailLevel(city, Loc(0, 0), s[1..], j - 1);
    }
  }

  /** A stack is at most as long as a route. */
  lemma StackLength(city: City, s: seq<Loc>)
    requires IsGrid(city) && IsStack(city, s)
    ensures |s| <= Rows(city) + Cols(city) - 1
    ensures |s| == Rows(city) + Cols(city) - 1 <==> Top(s) == Exit(city)
  {
    StackLevel(city, s, |s| - 1);
  }

  /** The stack of a route, and the streets along it. */
  lemma StackRoute(city: City, s: seq<Loc>)
    requires IsGrid(city) && IsStack(city, s)
    ensures s == [Loc(0, 0)] + s[1..]
    ensures IsRouteStack(city, s) <==> IsWalk(city, Loc(0, 0), s[1..])
    ensures Cells(city, s) == RouteOf(city, s[1..])
  {
    assert s == [Loc(0, 0)] + s[1..];
  }

  /** Pushing an open neighbour of the top keeps a stack. */
  lemma StackPush(city: City, s: seq<Loc>, m: Loc)
    requires IsGrid(city) && IsStack(city, s) && Step(Top(s), m) && Open(city, m)
    ensures IsStack(city, s + [m])
  {
    var t := s + [m];
    assert t[1..] == s[1..] + [m];
    var w := t[1..];
    forall i | 0 < i < |w|
      ensures Step(w[i - 1], w[i])
    {
      if i < |w| - 1 {
        assert w[i - 1] == s[1..][i - 1] && w[i] == s[1..][i];
      }
    }
  }

  /** A stack that is a prefix of a route either is that route, when it has
      reached the exit, or continues into it by a step onto an open cell. */
  lemma RoutePrefix(city: City, p: seq<Loc>, r: seq<Loc>)
    requires IsGrid(city) && IsStack(city, p) && IsRouteStack(city, r) && p <= r
    ensures Top(p) == Exit(city) ==> p == r
    ensures Top(p) != Exit(city) ==>
      |p| < |r| && Step(Top(p), r[|p|]) && Open(city, r[|p|]) && p + [r[|p|]] <= r
  {
    StackLength(city, p);
    StackLength(city, r);
    if Top(p) == Exit(city) {
      assert p == r[..|p|];
    } else {
      var w := r[1..];
      assert Open(city, w[|p| - 1]);
      if |p| > 1 {
        assert Step(w[|p| - 2], w[|p| - 1]);
      }
      assert r[..|p| + 1] == p + [r[|p|]];
    }
  }
}
