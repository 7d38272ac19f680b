/** Movement range: the Dijkstra search `FindRange` over the same grid graph
  * as the A* search, and its helper `PopLowestCost`. */
module AStarRange {
  import opened Wrappers
  import opened AStarNodes

  // ---------------------------------------------------------------------
  // PopLowestCost
  // ---------------------------------------------------------------------

  /** The cost looked up for `n`; `None` stands for the `float.MaxValue`
    * used when `n` has no entry, which no real cost reaches. */
  function CostOf(cost: map<Pos, int>, n: Pos): Option<int>
  {
    if n in cost then Some(cost[n]) else None
  }

  /** `c < best` where `None` is the largest value: a missing cost is never
    * lower, and any cost is lower than a missing one. */
  predicate Lower(c: Option<int>, best: Option<int>)
  {
    c.Some? && (best.None? || c.value < best.value)
  }

  /** Removes and returns the first entry of least cost, by moving the last
    * entry into its slot. An entry without a cost counts as the largest
    * value; when no entry has a cost, the first one is picked. */
  method PopLowestCost(list: seq<Pos>, cost: map<Pos, int>) returns (picked: Pos, rest: seq<Pos>, ghost idx: nat)
    requires |list| > 0
    ensures idx < |list| && picked == list[idx]
    ensures rest == SwapRemove(list, idx)
    ensures picked in cost ==> forall k :: 0 <= k < |list| && list[k] in cost ==> cost[picked] <= cost[list[k]]
    ensures picked in cost ==> forall k :: 0 <= k < idx ==> list[k] !in cost || cost[picked] < cost[list[k]]
    ensures picked !in cost ==> idx == 0 && forall k :: 0 <= k < |list| ==> list[k] !in cost
  {
    var index := 0;
    var best: Option<int> := None;
    for i := 0 to |list|
      invariant index < |list| && index <= i
      invariant best.None? ==> index == 0 && forall k :: 0 <= k < i ==> list[k] !in cost
      invariant best.Some? ==> index < i && list[index] in cost && best.value == cost[list[index]]
      invariant best.Some? ==> forall k :: 0 <= k < i && list[k] in cost ==> best.value <= cost[list[k]]
      invariant best.Some? ==> forall k :: 0 <= k < index ==> list[k] !in cost || best.value < cost[list[k]]
    {
      var c := CostOf(cost, list[i]);
      if Lower(c, best) {
        best := c;
        index := i;
      }
    }
    picked := list[index];
    var last := |list| - 1;
    rest := list[index := list[last]][..last];
    idx := index;
  }

  // ---------------------------------------------------------------------
  // The search invariant
  // ---------------------------------------------------------------------

  /** Every cell with a cost lies within range and is reached from `src` by
    * the route recorded for it, at no more than that cost. */
  ghost predicate Witnessed(g: Graph, tw: bool, src: Pos, range: int, cost: map<Pos, int>,
                            via: map<Pos, seq<Pos>>)
  {
    && src in g && src in cost && cost[src] == 0
    && forall n :: n in cost ==>
         && n in g && 0 <= cost[n] <= range && n in via
         && PathFromTo(g, via[n], tw, src, n) && Cost(g, via[n]) <= cost[n]
  }

  /** `u`'s neighbours have been relaxed at `u`'s present cost: every
    * enterable neighbour within range through `u` has a cost no worse. */
  ghost predicate Relaxed(g: Graph, tw: bool, range: int, cost: map<Pos, int>, u: Pos)
    requires u in cost
  {
    forall q :: Adjacent(u, q) && Enterable(g, q, tw) && cost[u] + g[q].distance <= range ==>
      q in cost && cost[q] <= cost[u] + g[q].distance
  }

  /** Every cell with a cost is waiting in the frontier, is the cell being
    * expanded (in `skip`), or has been relaxed. */
  ghost predicate Settled(g: Graph, tw: bool, range: int, cost: map<Pos, int>, frontier: seq<Pos>, skip: set<Pos>)
  {
    && (forall n :: n in frontier ==> n in cost)
    && (forall n :: n in cost ==> n in frontier || n in skip || Relaxed(g, tw, range, cost, n))
  }

  /** The result lists each cell with a cost, except the start, once. */
  ghost predicate Listed(src: Pos, cost: map<Pos, int>, result: seq<Pos>)
  {
    Distinct(result) && forall n :: n in result <==> n in cost && n != src
  }

  /** The first `k` neighbours `nbs` of `current` have been relaxed. */
  ghost predicate Partial(g: Graph, tw: bool, range: int, cost: map<Pos, int>, current: Pos, nbs: seq<Pos>, k: nat)
    requires current in cost && k <= |nbs|
  {
    forall i :: 0 <= i < k && Enterable(g, nbs[i], tw) && cost[current] + g[nbs[i]].distance <= range ==>
      nbs[i] in cost && cost[nbs[i]] <= cost[current] + g[nbs[i]].distance
  }

  /** The pairs (cell, cost) within range that could still lower a cell's
    * cost. Each lowering removes at least one, so it bounds the number of
    * times a cell is pushed onto the frontier. */
  ghost function Unsettled(g: Graph, range: int, cost: map<Pos, int>): set<(Pos, int)>
  {
    set n, c | n in g && 0 <= c <= range && (n !in cost || c < cost[n]) :: (n, c)
  }

  /** Lowering a cost within range shrinks the unsettled pairs strictly. */
  lemma UnsettledShrinks(g: Graph, range: int, cost: map<Pos, int>, nb: Pos, c: int)
    requires nb in g && 0 <= c <= range && (nb !in cost || c < cost[nb])
    ensures Unsettled(g, range, cost[nb := c]) < Unsettled(g, range, cost)
  {
    var before, after := Unsettled(g, range, cost), Unsettled(g, range, cost[nb := c]);
    forall p | p in after
      ensures p in before
    {
      var (n, d) := p;
      assert n in g && 0 <= d <= range;
    }
    assert (nb, c) in before;
    assert (nb, c) !in after;
  }

  // ---------------------------------------------------------------------
  // Steps of the search
  // ---------------------------------------------------------------------

  /** Popping `current` from the frontier leaves it as the cell being expanded. */
  lemma PopKeeps(g: Graph, tw: bool, range: int, cost: map<Pos, int>, frontier: seq<Pos>, idx: nat)
    requires idx < |frontier| && Settled(g, tw, range, cost, frontier, {})
    ensures Settled(g, tw, range, cost, SwapRemove(frontier, idx), {frontier[idx]})
  {
    var rest := SwapRemove(frontier, idx);
    SwapRemoveMultiset(frontier, idx);
    forall n | n in frontier && n != frontier[idx]
      ensures n in rest
    {
      assert n in multiset(frontier);
      assert n in multiset(rest);
    }
    forall n | n in rest
      ensures n in frontier
    {
      assert n in multiset(rest);
    }
  }

  /** A neighbour that is skipped, lies out of range or does not improve is
    * relaxed as it stands. */
  lemma RangeKeeps(g: Graph, tw: bool, range: int, cost: map<Pos, int>, current: Pos, nbs: seq<Pos>, k: nat)
    requires current in cost && k < |nbs|
    requires Partial(g, tw, range, cost, current, nbs, k)
    requires !Enterable(g, nbs[k], tw) || cost[current] + g[nbs[k]].distance > range
             || (nbs[k] in cost && cost[current] + g[nbs[k]].distance >= cost[nbs[k]])
    ensures Partial(g, tw, range, cost, current, nbs, k + 1)
  {
  }

  /** Lowering the cost of `nb` to the cost through `current` keeps every
    * recorded route a witness: `nb`'s route is `current`'s plus one step. */
  lemma RelaxWitnessed(g: Graph, tw: bool, src: Pos, range: int, cost: map<Pos, int>, via: map<Pos, seq<Pos>>,
                       current: Pos, nb: Pos, c: int)
    requires Witnessed(g, tw, src, range, cost, via)
    requires current in cost && Adjacent(current, nb) && Enterable(g, nb, tw)
    requires c == cost[current] + g[nb].distance && c <= range && (nb !in cost || c < cost[nb])
    ensures Witnessed(g, tw, src, range, cost[nb := c], via[nb := via[current] + [nb]])
  {
    ExtendPath(g, via[current], tw, nb);
    var cost', via' := cost[nb := c], via[nb := via[current] + [nb]];
    forall n | n in cost'
      ensures n in g && 0 <= cost'[n] <= range && n in via'
      ensures PathFromTo(g, via'[n], tw, src, n) && Cost(g, via'[n]) <= cost'[n]
    {
      if n != nb {
        assert cost'[n] == cost[n] && via'[n] == via[n];
      }
    }
  }

  /** Lowering the cost of `nb` and pushing it keeps every other cell
    * relaxed or waiting, and relaxes the first `k + 1` neighbours. */
  lemma RelaxSettled(g: Graph, tw: bool, range: int, cost: map<Pos, int>, frontier: seq<Pos>,
                     current: Pos, nbs: seq<Pos>, k: nat, nb: Pos, c: int)
    requires Settled(g, tw, range, cost, frontier, {current})
    requires current in cost && k < |nbs| && nbs[k] == nb && nb != current
    requires Partial(g, tw, range, cost, current, nbs, k)
    requires Enterable(g, nb, tw) && c == cost[current] + g[nb].distance && c <= range
    requires nb !in cost || c < cost[nb]
    ensures Settled(g, tw, range, cost[nb := c], frontier + [nb], {current})
    ensures current in cost[nb := c] && cost[nb := c][current] == cost[current]
    ensures Partial(g, tw, range, cost[nb := c], current, nbs, k + 1)
  {
    var cost' := cost[nb := c];
    forall n | n in cost' && n !in frontier + [nb] && n != current
      ensures Relaxed(g, tw, range, cost', n)
    {
      assert n in cost && n !in frontier;
      assert Relaxed(g, tw, range, cost, n);
    }
  }

  /** The result gains `nb` exactly when `nb` first gets a cost. */
  lemma RelaxListed(src: Pos, cost: map<Pos, int>, result: seq<Pos>, result': seq<Pos>, nb: Pos, c: int)
    requires Listed(src, cost, result) && src in cost && nb != src
    requires nb !in result ==> result' == result + [nb]
    requires nb in result ==> result' == result
    ensures Listed(src, cost[nb := c], result')
  {
  }

  /** Once every neighbour of `current` is relaxed, `current` is settled. */
  lemma ExpandedSettled(g: Graph, tw: bool, range: int, cost: map<Pos, int>, frontier: seq<Pos>,
                        current: Pos, nbs: seq<Pos>)
    requires Settled(g, tw, range, cost, frontier, {current})
    requires current in cost && nbs == Neighbors4(g, current)
    requires Partial(g, tw, range, cost, current, nbs, |nbs|)
    ensures Settled(g, tw, range, cost, frontier, {})
  {
    forall q | Adjacent(current, q) && Enterable(g, q, tw) && cost[current] + g[q].distance <= range
      ensures q in cost && cost[q] <= cost[current] + g[q].distance
    {
      assert q in nbs;
    }
  }

  /** When every cell with a cost is relaxed, every route from the start
    * within range ends at a cell whose cost is at most the route's. */
  lemma {:induction false} RelaxedCoversRoutes(g: Graph, tw: bool, src: Pos, range: int, cost: map<Pos, int>,
                                               path: seq<Pos>, t: Pos)
    requires src in cost && cost[src] == 0
    requires forall n :: n in cost ==> Relaxed(g, tw, range, cost, n)
    requires PathFromTo(g, path, tw, src, t) && Cost(g, path) <= range
    ensures t in cost && cost[t] <= Cost(g, path)
    decreases |path|
  {
    if |path| > 1 {
      var front := path[..|path| - 1];
      var u := front[|front| - 1];
      PrefixPath(g, path, tw, |path| - 1);
      RelaxedCoversRoutes(g, tw, src, range, cost, front, u);
      assert Relaxed(g, tw, range, cost, u);
      assert Adjacent(u, t) && Enterable(g, t, tw);
    }
  }

  /** At the end of the search, the result is exactly the cells other than
    * the start that some route reaches within range. */
  lemma RangeExact(g: Graph, tw: bool, src: Pos, range: int, cost: map<Pos, int>, via: map<Pos, seq<Pos>>,
                   result: seq<Pos>)
    requires Witnessed(g, tw, src, range, cost, via)
    requires Settled(g, tw, range, cost, [], {})
    requires Listed(src, cost, result)
    ensures forall n :: n in result <==> n != src && Reachable(g, src, n, range, tw)
  {
    forall n | n in result
      ensures n != src && Reachable(g, src, n, range, tw)
    {
      assert PathFromTo(g, via[n], tw, src, n) && Cost(g, via[n]) <= range;
    }
    forall n | n != src && Reachable(g, src, n, range, tw)
      ensures n in result
    {
      var path :| PathFromTo(g, path, tw, src, n) && Cost(g, path) <= range;
      RelaxedCoversRoutes(g, tw, src, range, cost, path, n);
    }
  }

  // ---------------------------------------------------------------------
  // FindRange
  // ---------------------------------------------------------------------

  /** Relaxes every neighbour of the popped `current`: an enterable
    * neighbour whose cost through `current` is within range and lower than
    * its recorded cost, if any, gets that cost and is pushed onto the
    * frontier, and is listed in the result the first time. */
  method RelaxAround(g: Graph, tw: bool, src: Pos, range: int, current: Pos,
                     cost0: map<Pos, int>, ghost via0: map<Pos, seq<Pos>>, frontier0: seq<Pos>, result0: seq<Pos>)
    returns (cost: map<Pos, int>, ghost via: map<Pos, seq<Pos>>, frontier: seq<Pos>, result: seq<Pos>)
    requires Witnessed(g, tw, src, range, cost0, via0)
    requires Settled(g, tw, range, cost0, frontier0, {current})
    requires Listed(src, cost0, result0)
    requires current in cost0
    ensures Witnessed(g, tw, src, range, cost, via)
    ensures Settled(g, tw, range, cost, frontier, {})
    ensures Listed(src, cost, result)
    ensures Unsettled(g, range, cost) <= Unsettled(g, range, cost0)
    ensures frontier == frontier0 || Unsettled(g, range, cost) < Unsettled(g, range, cost0)
  {
    cost, via, frontier, result := cost0, via0, frontier0, result0;
    var currentCost := cost[current];
    var nbs := Neighbors4(g, current);
    for k := 0 to |nbs|
      invariant Witnessed(g, tw, src, range, cost, via)
      invariant Settled(g, tw, range, cost, frontier, {current})
      invariant Listed(src, cost, result)
      invariant current in cost && cost[current] == currentCost
      invariant Partial(g, tw, range, cost, current, nbs, k)
      invariant Unsettled(g, range, cost) <= Unsettled(g, range, cost0)
      invariant frontier == frontier0 || Unsettled(g, range, cost) < Unsettled(g, range, cost0)
    {
      var nb := nbs[k];
      if tw && !g[nb].walkable {
        RangeKeeps(g, tw, range, cost, current, nbs, k);
        continue;
      }
      // max(0.0001, Distance) is Distance, as entry costs are at least 1.
      var newCost := currentCost + g[nb].distance;
      if newCost > range {
        RangeKeeps(g, tw, range, cost, current, nbs, k);
        continue;
      }
      if nb !in cost || newCost < cost[nb] {
        var result' := result;
        if nb != src && nb !in result {
          result' := result + [nb];
        }
        RelaxWitnessed(g, tw, src, range, cost, via, current, nb, newCost);
        RelaxSettled(g, tw, range, cost, frontier, current, nbs, k, nb, newCost);
        RelaxListed(src, cost, result, result', nb, newCost);
        UnsettledShrinks(g, range, cost, nb, newCost);
        cost := cost[nb := newCost];
        via := via[nb := via[current] + [nb]];
        frontier := frontier + [nb];
        result := result';
      } else {
        RangeKeeps(g, tw, range, cost, current, nbs, k);
      }
    }
    ExpandedSettled(g, tw, range, cost, frontier, current, nbs);
  }

  /** The cells other than `src` that some route from `src` reaches at a
    * cost of at most `range`, each once. A missing start or a negative
    * range gives the empty list. */
  method FindRange(g: Graph, src: Option<Pos>, range: int, tw: bool) returns (result: seq<Pos>)
    requires src.Some? ==> src.value in g
    ensures src.None? || range < 0 ==> result == []
    ensures Distinct(result)
    ensures src.Some? && range >= 0 ==>
              forall n :: n in result <==> n != src.value && Reachable(g, src.value, n, range, tw)
  {
    if src.None? || range < 0 {
      return [];
    }
    var a := src.value;
    result := [];
    var cost := map[a := 0];
    ghost var via := map[a := [a]];
    var frontier := [a];
    while |frontier| > 0
      invariant Witnessed(g, tw, a, range, cost, via)
      invariant Settled(g, tw, range, cost, frontier, {})
      invariant Listed(a, cost, result)
      decreases Unsettled(g, range, cost), |frontier|
    {
      var current, rest;
      ghost var idx;
      current, rest, idx := PopLowestCost(frontier, cost);
      PopKeeps(g, tw, range, cost, frontier, idx);
      cost, via, frontier, result := RelaxAround(g, tw, a, range, current, cost, via, rest, result);
    }
    RangeExact(g, tw, a, range, cost, via, result);
  }

  /** A larger range finds at least the cells a smaller one finds. */
  method RangeGrows(g: Graph, src: Option<Pos>, range: int, tw: bool) returns (small: seq<Pos>, large: seq<Pos>)
    requires src.Some? ==> src.value in g
    ensures forall n :: n in small ==> n in large
  {
    small := FindRange(g, src, range, tw);
    large := FindRange(g, src, range + 1, tw);
    forall n | n in small
      ensures n in large
    {
      ReachableMonotone(g, src.value, n, range, range + 1, tw);
    }
  }
}
