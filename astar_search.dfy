// A* search from one grid cell to another with the Manhattan heuristic,
// together with the helpers it uses: the best-candidate pop with its
// line-following tie-break, the parent-chain reconstruction and the reset of
// the scratch values a search leaves on the nodes.

module AStarSearch {
  import opened Wrappers
  import opened AStarNodes

  /** The per-node scratch values a search writes: the cost so far (`G`), the
    * heuristic (`H`) and the parent link. They belong to the nodes and outlive
    * a search, so a node may still hold values from an earlier one. */
  class Scratch {
    var G: map<Pos, int>
    var H: map<Pos, int>
    var Parent: map<Pos, Option<Pos>>

    constructor ()
      ensures G == map[] && H == map[] && Parent == map[]
    {
      G := map[];
      H := map[];
      Parent := map[];
    }
  }

  // ---------------------------------------------------------------------
  // The tie-break metrics and the pop
  // ---------------------------------------------------------------------

  /** The tolerance of the f comparisons. With whole-number costs it only
    * separates equal values from different ones. */
  const EPS: real := 0.00001

  function RealAbs(r: real): real
  {
    if r < 0.0 then -r else r
  }

  /** `|dx·py − dy·px|`: twice the area of the triangle start, goal, node.
    * It is zero exactly when the node lies on the start→goal line. */
  function LineDeviationArea(dx: int, dy: int, px: int, py: int): (r: nat)
    ensures r == 0 <==> dx * py == dy * px
  {
    Abs(dx * py - dy * px)
  }

  /** `dx·px + dy·py`: how far the node lies along the start→goal direction. */
  function LineProgress(dx: int, dy: int, px: int, py: int): int
  {
    dx * px + dy * py
  }

  /** A node `t` direction-lengths along the start→goal line has no
    * deviation, and its progress is `t` times the squared length. */
  lemma OnTheLine(dx: int, dy: int, t: int)
    ensures LineDeviationArea(dx, dy, t * dx, t * dy) == 0
    ensures LineProgress(dx, dy, t * dx, t * dy) == t * (dx * dx + dy * dy)
  {
    assert dx * (t * dy) == dy * (t * dx);
    assert dx * (t * dx) + dy * (t * dy) == t * (dx * dx + dy * dy);
  }

  /** Along a start→goal line of non-zero length, progress grows strictly
    * the farther a node lies towards the goal. */
  lemma ProgressGrowsAlongLine(dx: int, dy: int, s: int, t: int)
    requires s < t && (dx != 0 || dy != 0)
    ensures LineProgress(dx, dy, s * dx, s * dy) < LineProgress(dx, dy, t * dx, t * dy)
  {
    OnTheLine(dx, dy, s);
    OnTheLine(dx, dy, t);
    var q := dx * dx + dy * dy;
    assert q > 0 by {
      if dx != 0 {
        assert dx * dx > 0;
      } else {
        assert dy * dy > 0;
      }
      assert dx * dx >= 0 && dy * dy >= 0;
    }
    assert t * q - s * q == (t - s) * q;
    assert (t - s) * q > 0;
  }

  /** What the pop compares a node by: f = G + H, line deviation, progress
    * and H. */
  datatype Key = Key(f: int, dev: int, prog: int, h: int)

  function KeyOf(G: map<Pos, int>, H: map<Pos, int>, start: Pos, goal: Pos, n: Pos): Key
    requires n in G && n in H
  {
    var dx, dy := goal.x - start.x, goal.y - start.y;
    var px, py := n.x - start.x, n.y - start.y;
    Key(G[n] + H[n], LineDeviationArea(dx, dy, px, py), LineProgress(dx, dy, px, py), H[n])
  }

  /** `a` is strictly preferred to `b`: smaller f; on equal f, smaller
    * deviation, then larger progress, then smaller H. */
  predicate Before(a: Key, b: Key)
  {
    || a.f < b.f
    || (a.f == b.f && a.dev < b.dev)
    || (a.f == b.f && a.dev == b.dev && a.prog > b.prog)
    || (a.f == b.f && a.dev == b.dev && a.prog == b.prog && a.h < b.h)
  }

  /** The preference is a strict total order on keys. */
  lemma BeforeIsStrictTotal(a: Key, b: Key, c: Key)
    ensures !Before(a, a)
    ensures Before(a, b) && Before(b, c) ==> Before(a, c)
    ensures a == b || Before(a, b) || Before(b, a)
  {
  }

  /** Removes and returns the open node with the least f; among equal f the
    * one closest to the start→goal line, then the one farthest along it,
    * then the one with the least H; among complete ties the earliest. The
    * last element is moved into its slot. */
  method PopBest(open: seq<Pos>, inOpen: set<Pos>, G: map<Pos, int>, H: map<Pos, int>, start: Pos, goal: Pos)
    returns (best: Pos, open': seq<Pos>, inOpen': set<Pos>, ghost idx: nat)
    requires |open| > 0
    requires forall n :: n in open ==> n in G && n in H
    ensures idx < |open| && best == open[idx]
    ensures forall k :: 0 <= k < |open| ==> G[best] + H[best] <= G[open[k]] + H[open[k]]
    ensures forall k :: 0 <= k < |open| ==> !Before(KeyOf(G, H, start, goal, open[k]), KeyOf(G, H, start, goal, best))
    ensures forall k :: 0 <= k < idx ==> Before(KeyOf(G, H, start, goal, best), KeyOf(G, H, start, goal, open[k]))
    ensures open' == SwapRemove(open, idx)
    ensures inOpen' == inOpen - {best}
  {
    var dx := goal.x - start.x;
    var dy := goal.y - start.y;
    var bestIndex := 0;
    // None: the initial sentinels (float.MaxValue for f and H, long.MaxValue
    // for the deviation, long.MinValue for the progress), beaten on f by
    // every real candidate.
    var bestKey: Option<Key> := None;
    for i := 0 to |open|
      invariant bestKey.None? <==> i == 0
      invariant bestIndex < |open| && bestIndex <= i
      invariant i > 0 ==> bestIndex < i && bestKey.value == KeyOf(G, H, start, goal, open[bestIndex])
      invariant forall k :: 0 <= k < i ==> !Before(KeyOf(G, H, start, goal, open[k]), KeyOf(G, H, start, goal, open[bestIndex]))
      invariant forall k :: 0 <= k < bestIndex ==> Before(KeyOf(G, H, start, goal, open[bestIndex]), KeyOf(G, H, start, goal, open[k]))
    {
      var n := open[i];
      var f := G[n] + H[n];
      if bestKey.None? || (f as real) < (bestKey.value.f as real) - EPS {
        var px := n.x - start.x;
        var py := n.y - start.y;
        bestIndex := i;
        bestKey := Some(Key(f, LineDeviationArea(dx, dy, px, py), LineProgress(dx, dy, px, py), H[n]));
      } else if RealAbs(f as real - bestKey.value.f as real) <= EPS {
        var px := n.x - start.x;
        var py := n.y - start.y;
        var dev := LineDeviationArea(dx, dy, px, py);
        var prog := LineProgress(dx, dy, px, py);
        var b := bestKey.value;
        if dev < b.dev || (dev == b.dev && prog > b.prog) || (dev == b.dev && prog == b.prog && H[n] < b.h) {
          bestIndex := i;
          bestKey := Some(Key(f, dev, prog, H[n]));
        }
      }
    }
    best := open[bestIndex];
    idx := bestIndex;
    var last := |open| - 1;
    open' := open[bestIndex := open[last]];
    open' := open'[..last];
    inOpen' := inOpen - {best};
  }

  // ---------------------------------------------------------------------
  // What the search keeps true
  // ---------------------------------------------------------------------

  /** No route from `src` to `n` costs less than `c`. */
  ghost predicate Optimal(g: Graph, tw: bool, src: Pos, n: Pos, c: int)
  {
    forall path :: PathFromTo(g, path, tw, src, n) ==> c <= Cost(g, path)
  }

  /** The parent link of one node: the start has none and cost 0; any other
    * node's parent is a closed node next to it, the node is enterable, and
    * its cost is its parent's plus its own entry cost. */
  ghost predicate ParentOk(g: Graph, tw: bool, src: Pos, G: map<Pos, int>, Parent: map<Pos, Option<Pos>>,
                           closed: set<Pos>, n: Pos)
    requires n in G && n in Parent
  {
    && n in g && G[n] >= 0
    && match Parent[n]
       case None => n == src && G[n] == 0
       case Some(p) => p in closed && p in G && Adjacent(p, n) && Enterable(g, n, tw) && G[n] == G[p] + g[n].distance
  }

  ghost predicate Sound(g: Graph, tw: bool, src: Pos, G: map<Pos, int>, Parent: map<Pos, Option<Pos>>,
                        closed: set<Pos>, nodes: set<Pos>)
  {
    forall n :: n in nodes ==> n in G && n in Parent && ParentOk(g, tw, src, G, Parent, closed, n)
  }

  /** Closing `w` is reflected in the open set: every enterable, unclosed
    * neighbour of `w` is open, at a cost no worse than the route through `w`. */
  ghost predicate Frontier(g: Graph, tw: bool, G: map<Pos, int>, closed: set<Pos>, inOpen: set<Pos>, w: Pos)
    requires w in G
  {
    forall q :: q in g && Adjacent(w, q) && Enterable(g, q, tw) && q !in closed ==>
      q in inOpen && q in G && G[q] <= G[w] + g[q].distance
  }

  /** The bookkeeping shared by every point of the search: the open list has
    * no repeats and matches its set, open and closed nodes are disjoint grid
    * nodes, parent links are sound, open nodes carry the Manhattan
    * heuristic, and every closed node's cost is optimal. */
  ghost predicate Core(g: Graph, tw: bool, src: Pos, dst: Pos, G: map<Pos, int>, H: map<Pos, int>,
                       Parent: map<Pos, Option<Pos>>, open: seq<Pos>, inOpen: set<Pos>, closed: set<Pos>)
  {
    && Distinct(open)
    && (forall n :: n in inOpen <==> n in open)
    && (forall n :: n in open ==> n in g && n !in closed)
    && closed <= g.Keys
    && src in g && dst in g && dst !in closed
    && src in G && G[src] == 0
    && Sound(g, tw, src, G, Parent, closed, closed + inOpen)
    && (forall n :: n in open ==> n in H && H[n] == Manhattan(n, dst))
    && (forall w :: w in closed ==> w in G && Optimal(g, tw, src, w, G[w]))
  }

  /** The invariant of the search loop. */
  ghost predicate SearchInv(g: Graph, tw: bool, src: Pos, dst: Pos, G: map<Pos, int>, H: map<Pos, int>,
                            Parent: map<Pos, Option<Pos>>, open: seq<Pos>, inOpen: set<Pos>, closed: set<Pos>)
  {
    && Core(g, tw, src, dst, G, H, Parent, open, inOpen, closed)
    && (closed == {} ==> open == [src])
    && (closed != {} ==> src in closed)
    && (forall w :: w in closed ==> Frontier(g, tw, G, closed, inOpen, w))
  }

  /** The state right after `current` was closed, before its neighbours are
    * expanded. */
  ghost predicate ExpandReady(g: Graph, tw: bool, src: Pos, dst: Pos, G: map<Pos, int>, H: map<Pos, int>,
                              Parent: map<Pos, Option<Pos>>, open: seq<Pos>, inOpen: set<Pos>, closed: set<Pos>,
                              current: Pos)
  {
    && Core(g, tw, src, dst, G, H, Parent, open, inOpen, closed)
    && current in closed && src in closed
    && (forall w :: w in closed && w != current ==> Frontier(g, tw, G, closed, inOpen, w))
  }

  // ---------------------------------------------------------------------
  // Why a popped node's cost is optimal
  // ---------------------------------------------------------------------

  /** Where a route from the start first leaves the closed set, at `path[j]`,
    * that node is open and its f is at most the route's cost plus the
    * heuristic at the route's end. */
  lemma ExitBound(g: Graph, tw: bool, src: Pos, dst: Pos, G: map<Pos, int>, closed: set<Pos>, inOpen: set<Pos>,
                  path: seq<Pos>, j: nat)
    requires IsPath(g, path, tw) && path[0] == src
    requires 0 < j < |path| && path[j - 1] in closed && path[j] !in closed
    requires path[j - 1] in G && Optimal(g, tw, src, path[j - 1], G[path[j - 1]])
    requires Frontier(g, tw, G, closed, inOpen, path[j - 1])
    ensures path[j] in inOpen && path[j] in G
    ensures G[path[j]] + Manhattan(path[j], dst) <= Cost(g, path) + Manhattan(path[|path| - 1], dst)
  {
    var x, y := path[j - 1], path[j];
    ExitSplit(g, path, tw, j, dst);
    assert PathFromTo(g, path[..j], tw, src, x);
    assert Adjacent(x, y) && Enterable(g, y, tw);
  }

  /** With a consistent heuristic, the open node of least f has an optimal
    * cost: any route to it leaves the closed set at some open node whose f
    * is at most the route's cost plus the node's heuristic. */
  lemma PoppedIsOptimal(g: Graph, tw: bool, src: Pos, dst: Pos, G: map<Pos, int>, H: map<Pos, int>,
                        open: seq<Pos>, inOpen: set<Pos>, closed: set<Pos>, u: Pos)
    requires forall n :: n in inOpen <==> n in open
    requires forall n :: n in open ==> n in G && n in H && H[n] == Manhattan(n, dst) && n !in closed
    requires forall w :: w in closed ==> w in G && Optimal(g, tw, src, w, G[w]) && Frontier(g, tw, G, closed, inOpen, w)
    requires closed == {} ==> open == [src]
    requires closed != {} ==> src in closed
    requires src in G && G[src] == 0
    requires u in open
    requires forall n :: n in open ==> G[u] + H[u] <= G[n] + H[n]
    ensures Optimal(g, tw, src, u, G[u])
  {
    forall path | PathFromTo(g, path, tw, src, u)
      ensures G[u] <= Cost(g, path)
    {
      CostAtLeastSteps(g, path);
      if closed != {} {
        var j := FirstExit(path, closed);
        ExitBound(g, tw, src, dst, G, closed, inOpen, path, j);
      }
    }
  }

  /** What popping the least-f node does to the invariant: the node's cost is
    * optimal, its parent chain stays sound, and unless it is the goal the
    * state is ready for its expansion once it is closed. */
  lemma PopStep(g: Graph, tw: bool, src: Pos, dst: Pos, G: map<Pos, int>, H: map<Pos, int>,
                Parent: map<Pos, Option<Pos>>, open: seq<Pos>, inOpen: set<Pos>, closed: set<Pos>, idx: nat)
    requires SearchInv(g, tw, src, dst, G, H, Parent, open, inOpen, closed)
    requires idx < |open|
    requires forall k :: 0 <= k < |open| ==> G[open[idx]] + H[open[idx]] <= G[open[k]] + H[open[k]]
    ensures Optimal(g, tw, src, open[idx], G[open[idx]])
    ensures Sound(g, tw, src, G, Parent, closed, closed + {open[idx]})
    ensures open[idx] != dst ==>
      ExpandReady(g, tw, src, dst, G, H, Parent, SwapRemove(open, idx), inOpen - {open[idx]}, closed + {open[idx]}, open[idx])
  {
    var u := open[idx];
    forall n | n in open
      ensures G[u] + H[u] <= G[n] + H[n]
    {
      var k :| 0 <= k < |open| && open[k] == n;
    }
    PoppedIsOptimal(g, tw, src, dst, G, H, open, inOpen, closed, u);
    SwapRemoveDistinct(open, idx);
    var closed' := closed + {u};
    var inOpen' := inOpen - {u};
    forall n | n in closed' + inOpen'
      ensures n in G && n in Parent && ParentOk(g, tw, src, G, Parent, closed', n)
    {
      assert ParentOk(g, tw, src, G, Parent, closed, n);
    }
    forall w | w in closed
      ensures Frontier(g, tw, G, closed', inOpen', w)
    {
      assert Frontier(g, tw, G, closed, inOpen, w);
    }
  }

  // ---------------------------------------------------------------------
  // Reconstruction
  // ---------------------------------------------------------------------

  /** `s` back to front. */
  function Reverse<T>(s: seq<T>): (r: seq<T>)
    ensures |r| == |s|
    ensures forall i :: 0 <= i < |s| ==> r[i] == s[|s| - 1 - i]
  {
    if s == [] then [] else [s[|s| - 1]] + Reverse(s[..|s| - 1])
  }

  lemma ReverseAppend<T>(s: seq<T>, x: T)
    ensures Reverse(s + [x]) == [x] + Reverse(s)
  {
    assert (s + [x])[..|s|] == s;
  }

  /** Follows the parent links back from `end` to the start and reverses the
    * collected nodes: a route from the start to `end` costing `G[end]`. The
    * walk ends because every parent costs strictly less than its child. */
  method Reconstruct(g: Graph, s: Scratch, src: Pos, end: Pos, tw: bool, ghost closed: set<Pos>)
    returns (path: seq<Pos>)
    requires Sound(g, tw, src, s.G, s.Parent, closed, closed + {end})
    ensures PathFromTo(g, path, tw, src, end)
    ensures Cost(g, path) == s.G[end]
  {
    var rev: seq<Pos> := [];
    ghost var fwd: seq<Pos> := [];
    var cur: Option<Pos> := Some(end);
    while cur.Some?
      invariant cur.Some? ==> cur.value in closed + {end}
      invariant fwd == Reverse(rev)
      invariant rev == [] ==> cur == Some(end)
      invariant rev != [] ==>
        var last := rev[|rev| - 1];
        && last in closed + {end}
        && PathFromTo(g, fwd, tw, last, end)
        && Cost(g, fwd) == s.G[end] - s.G[last]
        && cur == s.Parent[last]
      decreases if cur.Some? then s.G[cur.value] + 1 else 0
    {
      var c := cur.value;
      assert ParentOk(g, tw, src, s.G, s.Parent, closed, c);
      if rev != [] {
        var last := rev[|rev| - 1];
        assert ParentOk(g, tw, src, s.G, s.Parent, closed, last);
        PrependPath(g, c, fwd, tw);
      }
      ReverseAppend(rev, c);
      rev := rev + [c];
      fwd := [c] + fwd;
      cur := s.Parent[c];
    }
    assert ParentOk(g, tw, src, s.G, s.Parent, closed, rev[|rev| - 1]);
    path := Reverse(rev);
  }

  // ---------------------------------------------------------------------
  // The search
  // ---------------------------------------------------------------------

  /** Expansion of `current` has settled the first `k` of its neighbours
    * `nbs`: each enterable, unclosed one is open at a cost no worse than
    * through `current`. */
  ghost predicate ExpandInv(g: Graph, tw: bool, src: Pos, dst: Pos, G: map<Pos, int>, H: map<Pos, int>,
                            Parent: map<Pos, Option<Pos>>, open: seq<Pos>, inOpen: set<Pos>, closed: set<Pos>,
                            current: Pos, nbs: seq<Pos>, k: nat)
  {
    && ExpandReady(g, tw, src, dst, G, H, Parent, open, inOpen, closed, current)
    && current in G && k <= |nbs|
    && (forall i :: 0 <= i < k && nbs[i] in g && Enterable(g, nbs[i], tw) && nbs[i] !in closed ==>
          nbs[i] in inOpen && nbs[i] in G && G[nbs[i]] <= G[current] + g[nbs[i]].distance)
  }

  /** The conjuncts of the expansion invariant, stated one by one. */
  lemma ExpandInvIntro(g: Graph, tw: bool, src: Pos, dst: Pos, G: map<Pos, int>, H: map<Pos, int>,
                       Parent: map<Pos, Option<Pos>>, open: seq<Pos>, inOpen: set<Pos>, closed: set<Pos>,
                       current: Pos, nbs: seq<Pos>, k: nat)
    requires Distinct(open) && (forall n :: n in inOpen <==> n in open)
    requires forall n :: n in open ==> n in g && n !in closed
    requires closed <= g.Keys && src in g && dst in g && dst !in closed
    requires src in G && G[src] == 0
    requires Sound(g, tw, src, G, Parent, closed, closed + inOpen)
    requires forall n :: n in open ==> n in H && H[n] == Manhattan(n, dst)
    requires forall w :: w in closed ==> w in G && Optimal(g, tw, src, w, G[w])
    requires current in closed && src in closed && current in G && k <= |nbs|
    requires forall w :: w in closed && w != current ==> w in G && Frontier(g, tw, G, closed, inOpen, w)
    requires forall i :: 0 <= i < k && nbs[i] in g && Enterable(g, nbs[i], tw) && nbs[i] !in closed ==>
               nbs[i] in inOpen && nbs[i] in G && G[nbs[i]] <= G[current] + g[nbs[i]].distance
    ensures ExpandInv(g, tw, src, dst, G, H, Parent, open, inOpen, closed, current, nbs, k)
  {
  }

  /** A neighbour that is skipped, or whose cost does not improve, is settled
    * as it stands. */
  lemma RelaxKeeps(g: Graph, tw: bool, src: Pos, dst: Pos, G: map<Pos, int>, H: map<Pos, int>,
                   Parent: map<Pos, Option<Pos>>, open: seq<Pos>, inOpen: set<Pos>, closed: set<Pos>,
                   current: Pos, nbs: seq<Pos>, k: nat, nb: Pos)
    requires ExpandInv(g, tw, src, dst, G, H, Parent, open, inOpen, closed, current, nbs, k)
    requires k < |nbs| && nbs[k] == nb && nb in g
    requires !Enterable(g, nb, tw) || nb in closed || (nb in inOpen && nb in G && G[nb] <= G[current] + g[nb].distance)
    ensures ExpandInv(g, tw, src, dst, G, H, Parent, open, inOpen, closed, current, nbs, k + 1)
  {
  }

  /** Re-parenting an unclosed neighbour `nb` on the closed `current`, at
    * the cost through `current`, keeps every parent link sound. */
  lemma RelaxSound(g: Graph, tw: bool, src: Pos, G: map<Pos, int>, Parent: map<Pos, Option<Pos>>,
                   closed: set<Pos>, nodes: set<Pos>, current: Pos, nb: Pos, t: int)
    requires Sound(g, tw, src, G, Parent, closed, nodes)
    requires current in closed && current in nodes
    requires nb in g && Adjacent(current, nb) && Enterable(g, nb, tw) && nb !in closed
    requires t == G[current] + g[nb].distance
    ensures Sound(g, tw, src, G[nb := t], Parent[nb := Some(current)], closed, nodes + {nb})
  {
    var G', Parent' := G[nb := t], Parent[nb := Some(current)];
    forall n | n in nodes + {nb}
      ensures n in G' && n in Parent' && ParentOk(g, tw, src, G', Parent', closed, n)
    {
      if n != nb {
        assert ParentOk(g, tw, src, G, Parent, closed, n);
      } else {
        assert ParentOk(g, tw, src, G, Parent, closed, current);
      }
    }
  }

  /** A cost change at an unclosed node leaves the closed nodes' costs optimal. */
  lemma RelaxOptimal(g: Graph, tw: bool, src: Pos, G: map<Pos, int>, closed: set<Pos>, nb: Pos, t: int)
    requires forall w :: w in closed ==> w in G && Optimal(g, tw, src, w, G[w])
    requires nb !in closed
    ensures forall w :: w in closed ==> w in G[nb := t] && Optimal(g, tw, src, w, G[nb := t][w])
  {
    forall w | w in closed
      ensures w in G[nb := t] && Optimal(g, tw, src, w, G[nb := t][w])
    {
      assert G[nb := t][w] == G[w];
    }
  }

  /** Lowering the cost of `nb` and opening it keeps the frontier of every
    * closed node other than `current`: a neighbour of such a node that was
    * open keeps a bound its new, lower cost still meets, and one that was
    * not open was no such neighbour. */
  lemma RelaxFrontier(g: Graph, tw: bool, G: map<Pos, int>, closed: set<Pos>, inOpen: set<Pos>, inOpen': set<Pos>,
                      current: Pos, nb: Pos, t: int)
    requires forall w :: w in closed && w != current ==> w in G && Frontier(g, tw, G, closed, inOpen, w)
    requires nb !in closed && inOpen <= inOpen' && nb in inOpen'
    requires nb in inOpen ==> nb in G && t < G[nb]
    ensures forall w :: w in closed && w != current ==> w in G[nb := t] && Frontier(g, tw, G[nb := t], closed, inOpen', w)
  {
    forall w | w in closed && w != current
      ensures w in G[nb := t] && Frontier(g, tw, G[nb := t], closed, inOpen', w)
    {
      assert Frontier(g, tw, G, closed, inOpen, w);
      assert G[nb := t][w] == G[w];
    }
  }

  /** Opening an unclosed node that is not yet open, with its Manhattan
    * heuristic, keeps the open list free of repeats, in step with its set,
    * and disjoint from the closed set. */
  lemma RelaxOpen(g: Graph, dst: Pos, H: map<Pos, int>, open: seq<Pos>, inOpen: set<Pos>, closed: set<Pos>,
                  nb: Pos, open': seq<Pos>, inOpen': set<Pos>)
    requires Distinct(open) && (forall n :: n in inOpen <==> n in open)
    requires forall n :: n in open ==> n in g && n !in closed && n in H && H[n] == Manhattan(n, dst)
    requires nb in g && nb !in closed
    requires nb !in inOpen ==> open' == open + [nb] && inOpen' == inOpen + {nb}
    requires nb in inOpen ==> open' == open && inOpen' == inOpen
    ensures Distinct(open') && (forall n :: n in inOpen' <==> n in open')
    ensures forall n :: n in open' ==> n in g && n !in closed
    ensures forall n :: n in open' ==> n in H[nb := Manhattan(nb, dst)] && H[nb := Manhattan(nb, dst)][n] == Manhattan(n, dst)
  {
  }

  /** The neighbours settled before `nb` stay settled when `nb`'s cost
    * drops, and `nb` itself is settled at the cost through `current`. */
  lemma RelaxSettled(g: Graph, tw: bool, G: map<Pos, int>, closed: set<Pos>, inOpen: set<Pos>, inOpen': set<Pos>,
                     current: Pos, nbs: seq<Pos>, k: nat, nb: Pos, t: int)
    requires current in G && current != nb && k < |nbs| && nbs[k] == nb
    requires nb in g && nb !in closed && inOpen <= inOpen' && nb in inOpen'
    requires t == G[current] + g[nb].distance && (nb in inOpen ==> nb in G && t < G[nb])
    requires forall i :: 0 <= i < k && nbs[i] in g && Enterable(g, nbs[i], tw) && nbs[i] !in closed ==>
               nbs[i] in inOpen && nbs[i] in G && G[nbs[i]] <= G[current] + g[nbs[i]].distance
    ensures forall i :: 0 <= i < k + 1 && nbs[i] in g && Enterable(g, nbs[i], tw) && nbs[i] !in closed ==>
              nbs[i] in inOpen' && nbs[i] in G[nb := t] && G[nb := t][nbs[i]] <= G[nb := t][current] + g[nbs[i]].distance
  {
  }

  /** Giving an unclosed neighbour the cost through `current`, when it is
    * newly discovered or that cost is lower, settles it and keeps the
    * invariant: the old cost, if any, was higher, so every bound on it
    * still holds. */
  lemma RelaxCore(g: Graph, tw: bool, src: Pos, dst: Pos, G: map<Pos, int>, H: map<Pos, int>,
                  Parent: map<Pos, Option<Pos>>, open: seq<Pos>, inOpen: set<Pos>, closed: set<Pos>,
                  current: Pos, nbs: seq<Pos>, k: nat, nb: Pos, t: int, open': seq<Pos>, inOpen': set<Pos>)
    requires ExpandInv(g, tw, src, dst, G, H, Parent, open, inOpen, closed, current, nbs, k)
    requires k < |nbs| && nbs[k] == nb
    requires nb in g && Adjacent(current, nb) && Enterable(g, nb, tw) && nb !in closed
    requires t == G[current] + g[nb].distance
    requires nb !in inOpen || (nb in G && t < G[nb])
    requires nb !in inOpen ==> open' == open + [nb] && inOpen' == inOpen + {nb}
    requires nb in inOpen ==> open' == open && inOpen' == inOpen
    ensures ExpandInv(g, tw, src, dst, G[nb := t], H[nb := Manhattan(nb, dst)], Parent[nb := Some(current)],
                      open', inOpen', closed, current, nbs, k + 1)
  {
    RelaxSound(g, tw, src, G, Parent, closed, closed + inOpen, current, nb, t);
    assert closed + inOpen + {nb} == closed + inOpen';
    RelaxOptimal(g, tw, src, G, closed, nb, t);
    RelaxFrontier(g, tw, G, closed, inOpen, inOpen', current, nb, t);
    RelaxOpen(g, dst, H, open, inOpen, closed, nb, open', inOpen');
    RelaxSettled(g, tw, G, closed, inOpen, inOpen', current, nbs, k, nb, t);
    ExpandInvIntro(g, tw, src, dst, G[nb := t], H[nb := Manhattan(nb, dst)], Parent[nb := Some(current)],
                   open', inOpen', closed, current, nbs, k + 1);
  }

  /** Once every neighbour of `current` is settled, its frontier holds and
    * the search invariant is restored. */
  lemma ExpandDone(g: Graph, tw: bool, src: Pos, dst: Pos, G: map<Pos, int>, H: map<Pos, int>,
                   Parent: map<Pos, Option<Pos>>, open: seq<Pos>, inOpen: set<Pos>, closed: set<Pos>,
                   current: Pos, nbs: seq<Pos>)
    requires nbs == Neighbors4(g, current)
    requires ExpandInv(g, tw, src, dst, G, H, Parent, open, inOpen, closed, current, nbs, |nbs|)
    ensures SearchInv(g, tw, src, dst, G, H, Parent, open, inOpen, closed)
  {
    forall q | q in g && Adjacent(current, q) && Enterable(g, q, tw) && q !in closed
      ensures q in inOpen && q in G && G[q] <= G[current] + g[q].distance
    {
      assert q in nbs;
    }
  }

  /** Relaxes every neighbour of the just-closed `current`: a neighbour not
    * yet open is opened, an open one whose cost through `current` is lower
    * gets that cost and `current` as parent. Works on the scratch maps
    * `G`, `H` and `P` and returns their new contents; every relaxed
    * neighbour is added to `touched`. */
  method RelaxNeighbours(g: Graph, tw: bool, src: Pos, dst: Pos, current: Pos,
                         G0: map<Pos, int>, H0: map<Pos, int>, P0: map<Pos, Option<Pos>>,
                         open: seq<Pos>, inOpen: set<Pos>, closed: set<Pos>, touched: set<Pos>)
    returns (G: map<Pos, int>, H: map<Pos, int>, P: map<Pos, Option<Pos>>,
             open': seq<Pos>, inOpen': set<Pos>, touched': set<Pos>)
    requires ExpandReady(g, tw, src, dst, G0, H0, P0, open, inOpen, closed, current)
    ensures SearchInv(g, tw, src, dst, G, H, P, open', inOpen', closed)
    ensures touched <= touched'
  {
    var nbs := Neighbors4(g, current);
    G, H, P := G0, H0, P0;
    open', inOpen', touched' := open, inOpen, touched;
    for k := 0 to |nbs|
      invariant ExpandInv(g, tw, src, dst, G, H, P, open', inOpen', closed, current, nbs, k)
      invariant touched <= touched'
    {
      var nb := nbs[k];
      if tw && !g[nb].walkable {
        RelaxKeeps(g, tw, src, dst, G, H, P, open', inOpen', closed, current, nbs, k, nb);
      } else if nb in closed {
        RelaxKeeps(g, tw, src, dst, G, H, P, open', inOpen', closed, current, nbs, k, nb);
      } else {
        // max(0.0001, Distance) is Distance, as entry costs are at least 1.
        var tentativeG := G[current] + g[nb].distance;
        var discovered := nb !in inOpen';
        if discovered || tentativeG < G[nb] {
          var open'', inOpen'' := open', inOpen';
          if discovered {
            open'', inOpen'' := open' + [nb], inOpen' + {nb};
          }
          RelaxCore(g, tw, src, dst, G, H, P, open', inOpen', closed, current, nbs, k, nb, tentativeG, open'', inOpen'');
          P := P[nb := Some(current)];
          G := G[nb := tentativeG];
          H := H[nb := Manhattan(nb, dst)];
          touched' := touched' + {nb};
          open', inOpen' := open'', inOpen'';
        } else {
          RelaxKeeps(g, tw, src, dst, G, H, P, open', inOpen', closed, current, nbs, k, nb);
        }
      }
    }
    ExpandDone(g, tw, src, dst, G, H, P, open', inOpen', closed, current, nbs);
  }

  /** Expands the just-closed `current` in place: the scratch fields get the
    * relaxed costs, heuristics and parents. */
  method Expand(g: Graph, s: Scratch, tw: bool, src: Pos, dst: Pos, current: Pos,
                open: seq<Pos>, inOpen: set<Pos>, closed: set<Pos>, touched: set<Pos>)
    returns (open': seq<Pos>, inOpen': set<Pos>, touched': set<Pos>)
    requires ExpandReady(g, tw, src, dst, s.G, s.H, s.Parent, open, inOpen, closed, current)
    modifies s`G, s`H, s`Parent
    ensures SearchInv(g, tw, src, dst, s.G, s.H, s.Parent, open', inOpen', closed)
    ensures touched <= touched'
  {
    var G, H, P;
    G, H, P, open', inOpen', touched' := RelaxNeighbours(g, tw, src, dst, current, s.G, s.H, s.Parent,
                                                         open, inOpen, closed, touched);
    s.G, s.H, s.Parent := G, H, P;
  }

  /** When the open list runs dry, the closed set holds the start and is
    * closed under enterable steps, so it holds every cell a route from the
    * start reaches. */
  lemma RoutesStayClosed(g: Graph, tw: bool, src: Pos, dst: Pos, G: map<Pos, int>, H: map<Pos, int>,
                         Parent: map<Pos, Option<Pos>>, open: seq<Pos>, inOpen: set<Pos>, closed: set<Pos>)
    requires SearchInv(g, tw, src, dst, G, H, Parent, open, inOpen, closed) && |open| == 0
    ensures forall path, t :: PathFromTo(g, path, tw, src, t) ==> t in closed
  {
    forall p, q | p in closed && q in g && Adjacent(p, q) && Enterable(g, q, tw)
      ensures q in closed
    {
      assert Frontier(g, tw, G, closed, inOpen, p);
    }
    forall path, t | PathFromTo(g, path, tw, src, t)
      ensures t in closed
    {
      ClosedSetContainsRoutes(g, closed, path, tw);
    }
  }

  // ---------------------------------------------------------------------
  // Uniform grids
  // ---------------------------------------------------------------------

  /** Every cell is walkable and costs 1 to enter. */
  predicate Uniform(g: Graph)
  {
    forall p :: p in g ==> g[p].walkable && g[p].distance == 1
  }

  function Min(a: int, b: int): int { if a < b then a else b }
  function Max(a: int, b: int): int { if a < b then b else a }

  /** `p` lies in the rectangle spanned by `a` and `b`. */
  predicate InBox(p: Pos, a: Pos, b: Pos)
  {
    Min(a.x, b.x) <= p.x <= Max(a.x, b.x) && Min(a.y, b.y) <= p.y <= Max(a.y, b.y)
  }

  /** The grid holds every cell of the rectangle spanned by `a` and `b`. */
  ghost predicate CoversBox(g: Graph, a: Pos, b: Pos)
  {
    forall p :: InBox(p, a, b) ==> p in g
  }

  /** One step from `a` towards `b`: along x first, then along y. */
  function StepToward(a: Pos, b: Pos): (c: Pos)
    requires a != b
    ensures Adjacent(a, c) && Manhattan(c, b) == Manhattan(a, b) - 1
    ensures forall p :: InBox(p, c, b) ==> InBox(p, a, b)
  {
    if a.x < b.x then Pos(a.x + 1, a.y)
    else if a.x > b.x then Pos(a.x - 1, a.y)
    else if a.y < b.y then Pos(a.x, a.y + 1)
    else Pos(a.x, a.y - 1)
  }

  /** The staircase from `a` to `b`: x first, then y. */
  function Staircase(a: Pos, b: Pos): (r: seq<Pos>)
    ensures |r| == Manhattan(a, b) + 1 && r[0] == a && r[|r| - 1] == b
    decreases Manhattan(a, b)
  {
    if a == b then [a] else [a] + Staircase(StepToward(a, b), b)
  }

  /** On a uniform grid covering their rectangle, the staircase is a route
    * from `a` to `b` costing the Manhattan distance. */
  lemma {:induction false} StaircaseIsRoute(g: Graph, tw: bool, a: Pos, b: Pos)
    requires Uniform(g) && CoversBox(g, a, b)
    ensures PathFromTo(g, Staircase(a, b), tw, a, b)
    ensures Cost(g, Staircase(a, b)) == Manhattan(a, b)
    decreases Manhattan(a, b)
  {
    assert InBox(a, a, b);
    if a != b {
      var c := StepToward(a, b);
      assert InBox(c, c, b);
      StaircaseIsRoute(g, tw, c, b);
      PrependPath(g, a, Staircase(c, b), tw);
    }
  }

  /** On a uniform grid a route costs its number of steps. */
  lemma {:induction false} UniformCost(g: Graph, path: seq<Pos>)
    requires Uniform(g) && forall k :: 0 <= k < |path| ==> path[k] in g
    ensures Cost(g, path) == |path| - 1 || |path| == 0
  {
    if |path| > 1 {
      UniformCost(g, path[..|path| - 1]);
    }
  }

  /** On a uniform grid covering the rectangle of `a` and `b`, a route of
    * least cost from `a` to `b` has Manhattan(a, b) + 1 nodes, and such a
    * route exists. */
  lemma ShortestUniformRoute(g: Graph, tw: bool, a: Pos, b: Pos, path: seq<Pos>)
    requires Uniform(g) && CoversBox(g, a, b)
    requires path == [] ==> forall p :: !PathFromTo(g, p, tw, a, b)
    requires path != [] ==> PathFromTo(g, path, tw, a, b) && Optimal(g, tw, a, b, Cost(g, path))
    ensures |path| == Manhattan(a, b) + 1
  {
    StaircaseIsRoute(g, tw, a, b);
    var stairs := Staircase(a, b);
    assert path != [] by {
      assert PathFromTo(g, stairs, tw, a, b);
    }
    assert Cost(g, path) <= Cost(g, stairs);
    UniformCost(g, path);
    ManhattanConsistent(g, path, tw, b);
  }

  /** A* from `src` to `dst`. Returns the empty list when either is missing
    * or no route exists; otherwise a route from `src` to `dst` of least
    * total entry cost. With `testWalkable`, every node after `src` is
    * walkable. */
  method FindShortestPath(g: Graph, s: Scratch, src: Option<Pos>, dst: Option<Pos>, testWalkable: bool)
    returns (path: seq<Pos>)
    requires src.Some? ==> src.value in g
    requires dst.Some? ==> dst.value in g
    modifies s
    ensures src.None? || dst.None? ==> path == []
    ensures path != [] ==> PathFromTo(g, path, testWalkable, src.value, dst.value)
    ensures path != [] ==> Optimal(g, testWalkable, src.value, dst.value, Cost(g, path))
    ensures src.Some? && dst.Some? && path == [] ==>
      forall p :: !PathFromTo(g, p, testWalkable, src.value, dst.value)
    ensures src.Some? && dst.Some? && Uniform(g) && CoversBox(g, src.value, dst.value) ==>
      |path| == Manhattan(src.value, dst.value) + 1
  {
    if src.None? || dst.None? {
      return [];
    }
    var a, b := src.value, dst.value;
    var open: seq<Pos> := [];
    var inOpen: set<Pos> := {};
    var closed: set<Pos> := {};
    var touched: set<Pos> := {};

    s.G := s.G[a := 0];
    s.H := s.H[a := Manhattan(a, b)];
    s.Parent := s.Parent[a := None];
    open := open + [a];
    inOpen := inOpen + {a};
    touched := touched + {a};

    while |open| > 0
      invariant SearchInv(g, testWalkable, a, b, s.G, s.H, s.Parent, open, inOpen, closed)
      decreases g.Keys - closed
    {
      ghost var open0, inOpen0 := open, inOpen;
      var current;
      ghost var idx;
      current, open, inOpen, idx := PopBest(open, inOpen, s.G, s.H, a, b);
      PopStep(g, testWalkable, a, b, s.G, s.H, s.Parent, open0, inOpen0, closed, idx);
      if current == b {
        path := Reconstruct(g, s, a, b, testWalkable, closed);
        if Uniform(g) && CoversBox(g, a, b) {
          ShortestUniformRoute(g, testWalkable, a, b, path);
        }
        return;
      }
      closed := closed + {current};
      open, inOpen, touched := Expand(g, s, testWalkable, a, b, current, open, inOpen, closed, touched);
    }
    RoutesStayClosed(g, testWalkable, a, b, s.G, s.H, s.Parent, open, inOpen, closed);
    path := [];
    if Uniform(g) && CoversBox(g, a, b) {
      ShortestUniformRoute(g, testWalkable, a, b, path);
    }
  }

  // ---------------------------------------------------------------------
  // Scratch reset
  // ---------------------------------------------------------------------

  /** A set of nodes held by reference, as a caller's touched set is. */
  class PosSet {
    var items: set<Pos>

    constructor (items: set<Pos>)
      ensures this.items == items
    {
      this.items := items;
    }
  }

  /** Overriding one more key with `v` is overriding the enlarged key set. */
  lemma OverrideStep<V>(m: map<Pos, V>, d: set<Pos>, x: Pos, v: V)
    ensures (m + (map n | n in d :: v))[x := v] == m + (map n | n in d + {x} :: v)
  {
  }

  /** Zeroes `G` and `H` and clears the parent of every node in `touched`,
    * then empties the set; a missing set is ignored. */
  method ResetTouched(s: Scratch, touched: PosSet?)
    modifies s, touched
    ensures touched == null ==> s.G == old(s.G) && s.H == old(s.H) && s.Parent == old(s.Parent)
    ensures touched != null ==>
      && s.G == old(s.G) + (map n | n in old(touched.items) :: 0)
      && s.H == old(s.H) + (map n | n in old(touched.items) :: 0)
      && s.Parent == old(s.Parent) + (map n | n in old(touched.items) :: None)
      && touched.items == {}
  {
    if touched == null {
      return;
    }
    var todo := touched.items;
    ghost var done: set<Pos> := {};
    while todo != {}
      invariant todo + done == old(touched.items) && todo !! done
      invariant touched.items == old(touched.items)
      invariant s.G == old(s.G) + (map n | n in done :: 0)
      invariant s.H == old(s.H) + (map n | n in done :: 0)
      invariant s.Parent == old(s.Parent) + (map n | n in done :: None)
      decreases todo
    {
      var n :| n in todo;
      OverrideStep(old(s.G), done, n, 0);
      OverrideStep(old(s.H), done, n, 0);
      OverrideStep(old(s.Parent), done, n, None);
      s.G := s.G[n := 0];
      s.H := s.H[n := 0];
      s.Parent := s.Parent[n := None];
      todo := todo - {n};
      done := done + {n};
    }
    touched.items := {};
  }
}
