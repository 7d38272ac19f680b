// The square grid the path searches run on. A node is identified by its
// position; each node knows whether it is walkable and its entry cost.

module AStarNodes {

  datatype Pos = Pos(x: int, y: int)

  /** The cost of entering a cell. Costs are whole numbers of at least 1, so
    * the search's `max(0.0001, Distance)` floor is the distance itself and
    * every comparison of accumulated costs is exact. */
  type StepCost = d: int | d >= 1 witness 1

  /** What a grid cell tells the search: walkability and the cost of entering it. */
  datatype Tile = Tile(walkable: bool, distance: StepCost)

  /** The grid: the positions that exist and their tiles. */
  type Graph = map<Pos, Tile>

  function Abs(n: int): nat
  {
    if n < 0 then -n else n
  }

  /** The Manhattan distance between two cells. */
  function Manhattan(a: Pos, b: Pos): (r: nat)
    ensures r == 0 <==> a == b
    ensures r == Abs(b.x - a.x) + Abs(b.y - a.y)
  {
    Abs(a.x - b.x) + Abs(a.y - b.y)
  }

  /** The Manhattan distance obeys the triangle inequality. */
  lemma ManhattanTriangle(a: Pos, b: Pos, c: Pos)
    ensures Manhattan(a, c) <= Manhattan(a, b) + Manhattan(b, c)
  {
  }

  /** Orthogonal neighbours: one step up, down, left or right. */
  predicate Adjacent(a: Pos, b: Pos)
  {
    Manhattan(a, b) == 1
  }

  /** The four orthogonal positions around `p`: up, down, left, right. */
  function Around(p: Pos): seq<Pos>
  {
    [Pos(p.x, p.y + 1), Pos(p.x, p.y - 1), Pos(p.x - 1, p.y), Pos(p.x + 1, p.y)]
  }

  lemma AroundIsAdjacent(p: Pos, q: Pos)
    ensures q in Around(p) <==> Adjacent(p, q)
  {
  }

  /** The positions of `ps` that exist in the grid, in order. */
  function Present(g: Graph, ps: seq<Pos>): (r: seq<Pos>)
    ensures forall q :: q in r <==> q in ps && q in g
    ensures |r| <= |ps|
  {
    if ps == [] then []
    else (if ps[0] in g then [ps[0]] else []) + Present(g, ps[1..])
  }

  /** `GetNeighbors4`: the existing cells up, down, left and right of `p`. */
  function Neighbors4(g: Graph, p: Pos): (r: seq<Pos>)
    ensures forall q :: q in r <==> q in g && Adjacent(p, q)
  {
    forall q ensures q in Around(p) <==> Adjacent(p, q) {
      AroundIsAdjacent(p, q);
    }
    Present(g, Around(p))
  }

  /** Whether the search may step onto `q`: it exists and, when walkability
    * is tested, it is walkable. */
  predicate Enterable(g: Graph, q: Pos, testWalkable: bool)
  {
    q in g && (!testWalkable || g[q].walkable)
  }

  /** A route: a non-empty run of existing cells, each adjacent to the one
    * before, every cell after the first enterable. */
  predicate IsPath(g: Graph, path: seq<Pos>, testWalkable: bool)
  {
    && |path| > 0
    && path[0] in g
    && (forall i :: 0 < i < |path| ==> Enterable(g, path[i], testWalkable))
    && (forall i :: 0 < i < |path| ==> Adjacent(path[i - 1], path[i]))
  }

  /** The route from `a` to `b`. */
  predicate PathFromTo(g: Graph, path: seq<Pos>, testWalkable: bool, a: Pos, b: Pos)
  {
    IsPath(g, path, testWalkable) && path[0] == a && path[|path| - 1] == b
  }

  /** What a route costs: the entry costs of every cell after the first. */
  function Cost(g: Graph, path: seq<Pos>): int
    requires forall i :: 0 <= i < |path| ==> path[i] in g
  {
    if |path| <= 1 then 0 else Cost(g, path[..|path| - 1]) + g[path[|path| - 1]].distance
  }

  /** A route can be cut at any cell; its cost is the sum of the two parts. */
  lemma {:induction false} CostSplit(g: Graph, path: seq<Pos>, i: nat)
    requires forall k :: 0 <= k < |path| ==> path[k] in g
    requires i < |path|
    ensures Cost(g, path) == Cost(g, path[..i + 1]) + Cost(g, path[i..])
    decreases |path|
  {
    if i + 1 < |path| {
      var front := path[..|path| - 1];
      CostSplit(g, front, i);
      assert front[..i + 1] == path[..i + 1];
      assert path[i..][..|path[i..]| - 1] == front[i..];
    } else {
      assert path[..i + 1] == path;
    }
  }

  /** Every step costs at least 1, so a route costs at least its number of steps. */
  lemma {:induction false} CostAtLeastSteps(g: Graph, path: seq<Pos>)
    requires forall k :: 0 <= k < |path| ==> path[k] in g
    ensures Cost(g, path) >= |path| - 1
  {
    if |path| > 1 {
      CostAtLeastSteps(g, path[..|path| - 1]);
    }
  }

  /** The Manhattan heuristic never overestimates: from `a` to `t` no route
    * through `b` costs less than the Manhattan distance it covers. */
  lemma {:induction false} ManhattanConsistent(g: Graph, path: seq<Pos>, tw: bool, t: Pos)
    requires IsPath(g, path, tw)
    ensures Manhattan(path[0], t) <= Cost(g, path) + Manhattan(path[|path| - 1], t)
  {
    if |path| > 1 {
      var front := path[..|path| - 1];
      ManhattanConsistent(g, front, tw, t);
      ManhattanTriangle(path[|path| - 2], path[|path| - 1], t);
    }
  }

  /** Cutting a route just before its `j`-th cell: the part before is a
    * route, and the cost of that part plus the entry cost of the `j`-th
    * cell plus the heuristic there bounds the route's cost plus the
    * heuristic at its end. */
  lemma ExitSplit(g: Graph, path: seq<Pos>, tw: bool, j: nat, t: Pos)
    requires IsPath(g, path, tw) && 0 < j < |path|
    ensures IsPath(g, path[..j], tw) && path[..j][0] == path[0] && path[..j][j - 1] == path[j - 1]
    ensures Cost(g, path[..j]) + g[path[j]].distance + Manhattan(path[j], t) <= Cost(g, path) + Manhattan(path[|path| - 1], t)
  {
    var pre, post := path[..j], path[j..];
    PrefixPath(g, path, tw, j);
    assert path[..j + 1][..j] == pre;
    assert Cost(g, path[..j + 1]) == Cost(g, pre) + g[path[j]].distance;
    SuffixPath(g, path, tw, j);
    ManhattanConsistent(g, post, tw, t);
    assert post[0] == path[j] && post[|post| - 1] == path[|path| - 1];
    CostSplit(g, path, j);
  }

  /** A route extended by one enterable neighbour is a route. */
  lemma ExtendPath(g: Graph, path: seq<Pos>, tw: bool, q: Pos)
    requires IsPath(g, path, tw) && Enterable(g, q, tw) && Adjacent(path[|path| - 1], q)
    ensures IsPath(g, path + [q], tw)
    ensures Cost(g, path + [q]) == Cost(g, path) + g[q].distance
  {
    assert (path + [q])[..|path|] == path;
  }

  /** A route stays a route when a cell adjacent to its start is put in front;
    * the new step costs the entry cost of the old first cell. */
  lemma PrependPath(g: Graph, c: Pos, path: seq<Pos>, tw: bool)
    requires IsPath(g, path, tw) && c in g && Adjacent(c, path[0]) && Enterable(g, path[0], tw)
    ensures IsPath(g, [c] + path, tw)
    ensures Cost(g, [c] + path) == Cost(g, path) + g[path[0]].distance
  {
    var p := [c] + path;
    forall i | 0 < i < |p|
      ensures Enterable(g, p[i], tw) && Adjacent(p[i - 1], p[i])
    {
      assert p[i] == path[i - 1];
      if i > 1 {
        assert p[i - 1] == path[i - 2];
      }
    }
    CostSplit(g, p, 1);
    assert p[..2][..1] == [c];
    assert p[1..] == path;
  }

  /** Any prefix of a route is a route. */
  lemma PrefixPath(g: Graph, path: seq<Pos>, tw: bool, i: nat)
    requires IsPath(g, path, tw) && 0 < i <= |path|
    ensures IsPath(g, path[..i], tw)
  {
  }

  /** Any suffix of a route is a route. */
  lemma SuffixPath(g: Graph, path: seq<Pos>, tw: bool, i: nat)
    requires IsPath(g, path, tw) && i < |path|
    ensures IsPath(g, path[i..], tw)
  {
    var s := path[i..];
    forall k | 0 < k < |s|
      ensures Enterable(g, s[k], tw) && Adjacent(s[k - 1], s[k])
    {
      assert s[k] == path[i + k] && s[k - 1] == path[i + k - 1];
    }
  }

  /** In a route from `a` to somewhere else, the last cell is enterable. */
  lemma EndIsEnterable(g: Graph, path: seq<Pos>, tw: bool, a: Pos, b: Pos)
    requires PathFromTo(g, path, tw, a, b) && a != b
    ensures Enterable(g, b, tw)
  {
  }

  /** A route from `a` that ends elsewhere leaves `s` somewhere when `a` is in
    * `s` and its end is not: some cell in `s` is followed by one outside. */
  lemma {:induction false} FirstExit(path: seq<Pos>, s: set<Pos>) returns (j: nat)
    requires |path| > 0 && path[0] in s && path[|path| - 1] !in s
    ensures 0 < j < |path| && path[j - 1] in s && path[j] !in s
  {
    if path[|path| - 2] in s {
      j := |path| - 1;
    } else {
      j := FirstExit(path[..|path| - 1], s);
    }
  }

  /** Whether some route from `a` to `b` costs at most `budget`. */
  ghost predicate Reachable(g: Graph, a: Pos, b: Pos, budget: int, tw: bool)
  {
    exists path :: PathFromTo(g, path, tw, a, b) && Cost(g, path) <= budget
  }

  /** More budget reaches at least as far. */
  lemma ReachableMonotone(g: Graph, a: Pos, b: Pos, budget: int, more: int, tw: bool)
    requires budget <= more && Reachable(g, a, b, budget, tw)
    ensures Reachable(g, a, b, more, tw)
  {
  }

  /** A set of cells that holds `a` and is closed under enterable steps
    * holds every cell a route from `a` reaches. */
  lemma {:induction false} ClosedSetContainsRoutes(g: Graph, s: set<Pos>, path: seq<Pos>, tw: bool)
    requires IsPath(g, path, tw) && path[0] in s
    requires forall p, q :: p in s && q in g && Adjacent(p, q) && Enterable(g, q, tw) ==> q in s
    ensures path[|path| - 1] in s
  {
    if |path| > 1 {
      PrefixPath(g, path, tw, |path| - 1);
      ClosedSetContainsRoutes(g, s, path[..|path| - 1], tw);
    }
  }

  /** No element occurs twice. */
  predicate Distinct<T(==)>(s: seq<T>)
  {
    forall i, j :: 0 <= i < j < |s| ==> s[i] != s[j]
  }

  /** Removal by moving the last element into slot `i` and dropping the last
    * slot, as a list pop does to avoid shifting. */
  function SwapRemove<T>(s: seq<T>, i: nat): (r: seq<T>)
    requires i < |s|
    ensures |r| == |s| - 1
  {
    s[i := s[|s| - 1]][..|s| - 1]
  }

  /** Swap removal takes out exactly the element at `i` and keeps all others. */
  lemma SwapRemoveMultiset<T>(s: seq<T>, i: nat)
    requires i < |s|
    ensures multiset(SwapRemove(s, i)) == multiset(s) - multiset{s[i]}
  {
    var last := |s| - 1;
    if i == last {
      assert s == s[..last] + [s[i]];
    } else {
      var r := SwapRemove(s, i);
      assert s == s[..i] + [s[i]] + s[i + 1..last] + [s[last]];
      assert r == s[..i] + [s[last]] + s[i + 1..last];
    }
  }

  /** On a list without repeats, swap removal leaves exactly the other
    * elements, still without repeats. */
  lemma SwapRemoveDistinct<T>(s: seq<T>, i: nat)
    requires i < |s| && Distinct(s)
    ensures Distinct(SwapRemove(s, i))
    ensures forall x :: x in SwapRemove(s, i) <==> x in s && x != s[i]
  {
    SwapRemoveMultiset(s, i);
    var r := SwapRemove(s, i);
    forall a, b | 0 <= a < b < |r|
      ensures r[a] != r[b]
    {
      var ia := if a == i then |s| - 1 else a;
      var ib := if b == i then |s| - 1 else b;
      assert r[a] == s[ia] && r[b] == s[ib] && ia != ib;
    }
    forall x
      ensures x in r <==> x in s && x != s[i]
    {
      assert x in r <==> x in multiset(r);
      assert x in s <==> x in multiset(s);
      if x == s[i] {
        assert multiset(s)[x] == 1 by {
          DistinctOnce(s, i);
        }
      }
    }
  }

  lemma {:induction false} DistinctOnce<T>(s: seq<T>, i: nat)
    requires i < |s| && Distinct(s)
    ensures multiset(s)[s[i]] == 1
  {
    var x := s[i];
    assert s == s[..i] + [x] + s[i + 1..];
    var after := s[i + 1..];
    assert x !in s[..i] && x !in after by {
      forall k | 0 <= k < i ensures s[..i][k] != x { }
      forall k | 0 <= k < |after| ensures after[k] != x {
        assert after[k] == s[i + 1 + k];
      }
    }
    assert multiset(s[..i])[x] == 0 && multiset(after)[x] == 0;
  }
}
