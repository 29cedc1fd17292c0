/** The streets of street.cpp and the paths made of them: a path's safety is
    the sum of its streets' ratings, two paths are compared street by street
    on their attributes, and of two paths the longer or else the safer one
    wins. */
module Streets {
  /** A street as the solvers see it. Its rating is computed elsewhere from
      the other attributes; here it is given. */
  datatype Street = Street(crime: int, light: int, density: int, sidewalk: bool, rating: int)

  /** The total safety of a path: the sum of its streets' ratings. */
  function Safety(path: seq<Street>): int
  {
    if path == [] then 0 else path[0].rating + Safety(path[1..])
  }

  /** Safety adds up over the parts of a path. */
  lemma {:induction false} SafetyConcat(a: seq<Street>, b: seq<Street>)
    ensures Safety(a + b) == Safety(a) + Safety(b)
  {
    if a != [] {
      assert (a + b)[1..] == a[1..] + b;
      SafetyConcat(a[1..], b);
    } else {
      assert a + b == b;
    }
  }

  /** `getPathSafetyVector`: adds up the ratings from the first street on. */
  method PathSafety(path: seq<Street>) returns (output: int)
    ensures output == Safety(path)
  {
    output := 0;
    for i := 0 to |path|
      invariant output == Safety(path[..i])
    {
      assert path[..i + 1] == path[..i] + [path[i]];
      SafetyConcat(path[..i], [path[i]]);
      output := output + path[i].rating;
    }
    assert path[..|path|] == path;
  }

  /** Two streets `areEqual` treats as the same: equal crime, light and
      density, and both or neither a sidewalk. */
  predicate Alike(a: Street, b: Street)
  {
    a.crime == b.crime && a.light == b.light && a.density == b.density && a.sidewalk == b.sidewalk
  }

  /** Paths of the same length whose streets are alike position by position. */
  predicate SamePath(path1: seq<Street>, path2: seq<Street>)
  {
    |path1| == |path2| && forall i :: 0 <= i < |path1| ==> Alike(path1[i], path2[i])
  }

  /** `areEqual`: false on different lengths, else a scan that stops at the
      first position where the streets differ. */
  method AreEqual(path1: seq<Street>, path2: seq<Street>) returns (equal: bool)
    ensures equal <==> SamePath(path1, path2)
    ensures path1 == path2 ==> equal
  {
    if |path1| != |path2| {
      return false;
    }
    for i := 0 to |path1|
      invariant forall j :: 0 <= j < i ==> Alike(path1[j], path2[j])
    {
      if path1[i].crime != path2[i].crime
        || path1[i].light != path2[i].light
        || path1[i].density != path2[i].density
        || (!path1[i].sidewalk && path2[i].sidewalk)
        || (path1[i].sidewalk && !path2[i].sidewalk)
      {
        return false;
      }
    }
    return true;
  }

  /** The comparison `areEqual` makes is an equivalence. */
  lemma SamePathEquivalence(p: seq<Street>, q: seq<Street>, r: seq<Street>)
    ensures SamePath(p, p)
    ensures SamePath(p, q) ==> SamePath(q, p)
    ensures SamePath(p, q) && SamePath(q, r) ==> SamePath(p, r)
  {
  }

  /** `a` is at least as good as `b` for `getSaferPath`: longer, or as long
      and at least as safe. */
  predicate NoWorse(a: seq<Street>, b: seq<Street>)
  {
    |a| > |b| || (|a| == |b| && Safety(a) >= Safety(b))
  }

  /** `getSaferPath`: the longer path, or on equal length the safer one,
      `path1` on a tie. */
  function SaferPath(path1: seq<Street>, path2: seq<Street>): (r: seq<Street>)
    ensures r == path1 || r == path2
    ensures NoWorse(r, path1) && NoWorse(r, path2)
    ensures |path1| == |path2| && Safety(path1) == Safety(path2) ==> r == path1
  {
    if |path1| > |path2| then path1
    else if |path2| > |path1| then path2
    else if Safety(path1) >= Safety(path2) then path1
    else path2
  }
}
