/** OrderUtils: the stock orders. A `BasicOrder` has empty start, complete
    and cancel hooks and a `DoUpdate` that is done at once; a `WaitOrder`
    is a basic order whose `DoUpdate` counts its timeout down by the frame
    time and is done once the timeout is below zero. Time is counted in
    integer ticks; the frame time is a parameter. */
module OrderUtils {
  import opened Wrappers
  import opened Orders

  /** `n` calls on which `DoUpdate`, if asked, reports done. */
  function AllDone(n: nat): (r: seq<bool>)
    ensures |r| == n && forall i :: 0 <= i < n ==> r[i]
  {
    if n == 0 then [] else [true] + AllDone(n - 1)
  }

  /** A new basic order is removed after exactly three `Update` calls,
      having run `DoStart`, `DoUpdate` and `DoComplete` once each. */
  lemma BasicOrderThreeUpdates()
    ensures Run(Phase(START, false), AllDone(3)) == (Phase(REMOVE, false), [DoStart, DoUpdate, DoComplete])
    ensures Run(Phase(START, false), AllDone(2)).0.execution == COMPLETE
    ensures Run(Phase(START, false), AllDone(1)).0.execution == UPDATE
  {
    Lifecycle(AllDone(3), 1);
    assert [DoStart] + Repeat(DoUpdate, 1) + [DoComplete] == [DoStart, DoUpdate, DoComplete];
    var two := AllDone(2);
    assert two[1..][1..] == [];
    assert AllDone(1)[1..] == [];
  }

  /** The hook bodies one hook call of a basic order runs: its `DoCancel`
      calls its own `DoComplete`, so an order derived from it tears down on
      cancel exactly as it does on completion. */
  function BasicBodies(h: Hook): seq<Hook>
  {
    if h == DoCancel then [DoCancel, DoComplete] else [h]
  }

  /** The hook bodies a sequence of hook calls runs, in order. */
  function BasicTrace(hooks: seq<Hook>): (r: seq<Hook>)
    ensures DoComplete in r <==> DoComplete in hooks || DoCancel in hooks
    ensures |r| >= |hooks|
  {
    if hooks == [] then [] else BasicBodies(hooks[0]) + BasicTrace(hooks[1..])
  }

  /** A cancelled basic order runs `DoCancel` and, through it, `DoComplete`:
      the same teardown as a basic order that completes, which also ends
      on `DoComplete`. */
  lemma BasicCancelCompletes(c: bool, cancelDones: seq<bool>, dones: seq<bool>, j: nat)
    requires |cancelDones| >= 1
    requires 1 <= j && j + 1 < |dones| && dones[j]
    requires forall i :: 1 <= i < j ==> !dones[i]
    ensures BasicTrace(Run(Phase(CANCEL, c), cancelDones).1) == [DoCancel, DoComplete]
    ensures var done := BasicTrace(Run(Phase(START, false), dones).1);
            |done| > 0 && done[|done| - 1] == DoComplete
  {
    CancelLifecycle(c, cancelDones);
    assert BasicTrace([DoCancel]) == [DoCancel, DoComplete];
    Lifecycle(dones, j);
    var hooks := [DoStart] + Repeat(DoUpdate, j) + [DoComplete];
    BasicTraceKeepsOthers(hooks);
  }

  /** Without `DoCancel`, the trace is the hook calls themselves. */
  lemma {:induction false} BasicTraceKeepsOthers(hooks: seq<Hook>)
    requires DoCancel !in hooks
    ensures BasicTrace(hooks) == hooks
  {
    if hooks != [] {
      assert hooks[0] in hooks;
      assert forall h :: h in hooks[1..] ==> h in hooks;
      BasicTraceKeepsOthers(hooks[1..]);
    }
  }

  class BasicOrder {
    const order: Order

    constructor(name: string)
      ensures fresh(order) && order.name == name && order.execution == START && !order.cancelled
    {
      order := new Order(name);
    }

    /** `DoUpdate`: a basic order is done at once. */
    method DoUpdate() returns (done: bool)
      ensures done
    {
      done := true;
    }

    /** `Update` of a basic order: the state machine with `DoUpdate` always
        reporting done. */
    method Update() returns (hook: Option<Hook>)
      modifies order
      ensures (Phase(order.execution, order.cancelled), hook) ==
              Step(Phase(old(order.execution), old(order.cancelled)), true)
    {
      var done := true;
      if order.execution == UPDATE {
        done := DoUpdate();
      }
      hook := order.Update(done);
    }
  }

  /** The timeout left after `k` updates of `delta` ticks each. */
  function Remaining(time: int, delta: int, k: nat): int
  {
    time - k * delta
  }

  /** With a fixed frame time `delta` > 0 and a timeout `time` >= 0, the
      first `DoUpdate` that reports done is call number time / delta + 1. */
  lemma WaitFirstDone(time: int, delta: int)
    requires delta > 0 && time >= 0
    ensures Remaining(time, delta, time / delta + 1) < 0
    ensures forall j: nat :: 1 <= j <= time / delta ==> Remaining(time, delta, j) >= 0
  {
    var q := time / delta;
    assert q * delta <= time < q * delta + delta;
    assert Remaining(time, delta, q + 1) == time - q * delta - delta;
    forall j: nat | 1 <= j <= q ensures Remaining(time, delta, j) >= 0 {
      MulMono(j, q, delta);
    }
  }

  lemma MulMono(a: nat, b: nat, d: nat)
    requires a <= b
    ensures a * d <= b * d
  {
  }

  class WaitOrder {
    const order: Order
    var timeout: int

    /** A wait order's timeout starts at the given time. */
    constructor(time: int)
      ensures fresh(order) && order.name == "WaitOrder" && order.execution == START && !order.cancelled
      ensures timeout == time
    {
      order := new Order("WaitOrder");
      timeout := time;
    }

    /** `DoUpdate`: the frame time is taken off the timeout, and the wait
        is done once the timeout is below zero. */
    method DoUpdate(delta: int) returns (done: bool)
      modifies this
      ensures timeout == old(timeout) - delta
      ensures done <==> timeout < 0
    {
      timeout := timeout - delta;
      if timeout < 0 {
        return true;
      } else {
        return false;
      }
    }

    /** `Update` of a wait order: the timeout moves only on a call that runs
        `DoUpdate`, that is, in UPDATE. */
    method Update(delta: int) returns (hook: Option<Hook>)
      modifies this, order
      ensures timeout == if old(order.execution) == UPDATE then old(timeout) - delta else old(timeout)
      ensures (Phase(order.execution, order.cancelled), hook) ==
              Step(Phase(old(order.execution), old(order.cancelled)), old(timeout) - delta < 0)
    {
      var done := false;
      if order.execution == UPDATE {
        done := DoUpdate(delta);
      }
      hook := order.Update(done);
    }
  }

  /** A new wait order on `time` whose `DoUpdate` runs `k` times with frame
      time `delta`: the timeout left is `Remaining(time, delta, k)`, and call
      `i` (from 1) reports done exactly when `Remaining(time, delta, i)` is
      negative, so `WaitFirstDone` says which call first does. */
  method WaitUpdates(time: int, delta: int, k: nat) returns (timeout: int, dones: seq<bool>)
    ensures timeout == Remaining(time, delta, k)
    ensures |dones| == k && forall i :: 0 <= i < k ==> (dones[i] <==> Remaining(time, delta, i + 1) < 0)
  {
    var w := new WaitOrder(time);
    dones := [];
    var i := 0;
    while i < k
      invariant 0 <= i <= k && w.timeout == Remaining(time, delta, i)
      invariant |dones| == i && forall j :: 0 <= j < i ==> (dones[j] <==> Remaining(time, delta, j + 1) < 0)
    {
      assert (i + 1) * delta == i * delta + delta;
      var done := w.DoUpdate(delta);
      dones := dones + [done];
      i := i + 1;
    }
    timeout := w.timeout;
  }
}
