/** GridOrderUtils: the order that walks a grid object along a path of
    cells. `DoStart` copies the path and drops its first cell when the
    actor already stands there; each `DoUpdate` either waits (adding the
    frame time) or, once the waiting time has passed, moves the actor onto
    the next cell and drops it, reporting done when the path is used up.
    Time is counted in integer ticks; the position interpolation between
    cells is not modelled. */
module GridOrderUtils {
  import opened Wrappers
  import opened TileCells
  import opened Grids
  import opened Orders

  class GridMoveOrder {
    const order: Order
    const actor: GridObject
    const pathArg: seq<TileCell<GridObject>>
    const timeArg: int
    var path: seq<TileCell<GridObject>>
    var time: int
    var currentTime: int

    /** A move order for an actor along a path, each step taking `time`. */
    constructor(actor: GridObject, path: seq<TileCell<GridObject>>, time: int)
      ensures fresh(order) && order.name == "GridMoveOrder" && order.execution == START && !order.cancelled
      ensures this.actor == actor && pathArg == path && timeArg == time
      ensures this.path == [] && this.time == 0 && currentTime == 0
    {
      order := new Order("GridMoveOrder");
      this.actor := actor;
      pathArg := path;
      timeArg := time;
      this.path := [];
      this.time := 0;
      currentTime := 0;
    }

    /** `DoStart`: the order works on its own copy of the path, without
        its first cell when that is where the actor stands. The path needs
        a first cell. */
    method DoStart()
      requires |pathArg| >= 1
      modifies this
      ensures path == if actor.location == Some(pathArg[0]) then pathArg[1..] else pathArg
      ensures time == timeArg && currentTime == old(currentTime)
    {
      path := pathArg;
      time := timeArg;
      if actor.location == Some(path[0]) {
        path := path[1..];
      }
    }

    /** `DoUpdate`: once the waiting time has passed (tested before it is
        advanced), the clock restarts, the actor is placed on the next
        cell, that cell is dropped, and the order is done exactly when the
        path is now empty; otherwise the frame time is added and nothing
        else changes. The path needs a next cell. */
    method DoUpdate(delta: int) returns (done: bool)
      requires |path| >= 1
      modifies this, actor, CellFrame(actor.location), {path[0]}
      ensures old(currentTime) >= time ==>
                currentTime == 0 && path == old(path[1..]) && (done <==> path == []) &&
                actor.location == Some(old(path[0])) &&
                old(path[0]).contents ==
                (if old(path[0].contents).None? || old(actor.location) == Some(old(path[0])) then Some(actor)
                 else old(path[0].contents)) &&
                (old(actor.location).Some? && old(actor.location) != Some(old(path[0])) ==>
                   old(actor.location.value).contents == None)
      ensures old(currentTime) < time ==>
                currentTime == old(currentTime) + delta && path == old(path) && !done &&
                actor.location == old(actor.location)
      ensures time == old(time)
    {
      if currentTime >= time {
        currentTime := 0;
        actor.SetLocation(Some(path[0]));
        path := path[1..];
        if |path| == 0 {
          return true;
        }
      } else {
        currentTime := currentTime + delta;
      }
      return false;
    }
  }

  /** The number of waiting `DoUpdate` calls before the arrival call, from
      a clock at `currentTime`. */
  function WaitingCalls(currentTime: int, time: int, delta: int): nat
    requires delta > 0
    decreases time - currentTime
  {
    if currentTime >= time then 0 else 1 + WaitingCalls(currentTime + delta, time, delta)
  }

  /** Each waypoint takes ceil((time - currentTime) / delta) waiting calls,
      then one arrival call: the least k with k * delta >= time -
      currentTime. */
  lemma {:induction false} WaitingCallsCeil(currentTime: int, time: int, delta: int)
    requires delta > 0
    ensures var k := WaitingCalls(currentTime, time, delta);
            k * delta >= time - currentTime && (k == 0 || (k - 1) * delta < time - currentTime)
    decreases time - currentTime
  {
    if currentTime < time {
      WaitingCallsCeil(currentTime + delta, time, delta);
      var k' := WaitingCalls(currentTime + delta, time, delta);
      assert (k' + 1) * delta == k' * delta + delta;
    }
  }

  /** The path [c0, c1, c2] walked by an actor on c0, with no waiting time:
      `DoStart` drops c0, the first `DoUpdate` moves the actor to c1 and
      is not done, the second moves it to c2 and is done. */
  method ThreeCellWalk(actor: GridObject, c0: TileCell<GridObject>, c1: TileCell<GridObject>,
                       c2: TileCell<GridObject>, delta: int)
    returns (first: bool, second: bool)
    requires c0 != c1 && c1 != c2 && c0 != c2
    requires actor.location == Some(c0) && c0.contents == Some(actor)
    requires c1.contents == None && c2.contents == None
    modifies actor, c0, c1, c2
    ensures !first && second
    ensures actor.location == Some(c2) && c2.contents == Some(actor)
    ensures c0.contents == None && c1.contents == None
  {
    var move := new GridMoveOrder(actor, [c0, c1, c2], 0);
    move.DoStart();
    assert move.path == [c1, c2];
    first := move.DoUpdate(delta);
    assert actor.location == Some(c1) && c1.contents == Some(actor);
    second := move.DoUpdate(delta);
  }
}
