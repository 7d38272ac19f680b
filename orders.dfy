/** Orders: the order scheduler. An order is a five-state machine
    (START, UPDATE, COMPLETE, CANCEL, REMOVE) whose `Update` runs at most one
    of the order's hooks; the handler keeps a FIFO queue of orders and
    advances only its head. The hooks belong to the concrete order: the
    value `DoUpdate` returns on a call is a parameter (`done`), and a hook
    call is reported in the result. Events sent to listeners are returned
    in order. */
module Orders {
  import opened Wrappers

  datatype Execution = START | UPDATE | COMPLETE | REMOVE | CANCEL

  datatype Hook = DoStart | DoUpdate | DoComplete | DoCancel

  /** The part of an order the state machine changes. */
  datatype Phase = Phase(execution: Execution, cancelled: bool)

  /** One `Order.Update` call: the new phase and the hook it ran. `done`
      is what the order's `DoUpdate` returns, if it is called. */
  function Step(p: Phase, done: bool): (r: (Phase, Option<Hook>))
    ensures r.1.Some? <==> p.execution != REMOVE
    ensures r.0.cancelled <==> p.cancelled || p.execution == CANCEL
    ensures r.0.execution == COMPLETE <==> p.execution == UPDATE && done
    ensures r.0.execution == REMOVE <==> p.execution == COMPLETE || p.execution == CANCEL || p.execution == REMOVE
    ensures r.0.execution == UPDATE <==> p.execution == START || (p.execution == UPDATE && !done)
  {
    match p.execution
    case START => (Phase(UPDATE, p.cancelled), Some(DoStart))
    case UPDATE => (if done then Phase(COMPLETE, p.cancelled) else p, Some(DoUpdate))
    case COMPLETE => (Phase(REMOVE, p.cancelled), Some(DoComplete))
    case CANCEL => (Phase(REMOVE, true), Some(DoCancel))
    case REMOVE => (p, None)
  }

  function Hooks(h: Option<Hook>): seq<Hook>
  {
    if h.Some? then [h.value] else []
  }

  /** Successive `Update` calls: the final phase and the hooks run, in
      order. */
  function Run(p: Phase, dones: seq<bool>): (Phase, seq<Hook>)
    decreases |dones|
  {
    if dones == [] then (p, [])
    else
      var s := Step(p, dones[0]);
      var rest := Run(s.0, dones[1..]);
      (rest.0, Hooks(s.1) + rest.1)
  }

  function Repeat(h: Hook, n: nat): (r: seq<Hook>)
    ensures |r| == n && forall i :: 0 <= i < n ==> r[i] == h
  {
    if n == 0 then [] else [h] + Repeat(h, n - 1)
  }

  /** A removed order stays removed and runs nothing. */
  lemma {:induction false} RunRemoved(c: bool, dones: seq<bool>)
    ensures Run(Phase(REMOVE, c), dones) == (Phase(REMOVE, c), [])
  {
    if dones != [] {
      RunRemoved(c, dones[1..]);
      var rest := Run(Phase(REMOVE, c), dones[1..]);
      assert Hooks(None) + rest.1 == [];
    }
  }

  /** An order in UPDATE runs `DoUpdate` until the first call on which it
      returns true (call `j`), then `DoComplete` on the next call, and is
      then removed. */
  lemma {:induction false} RunUpdating(c: bool, dones: seq<bool>, j: nat)
    requires j + 1 < |dones| && dones[j]
    requires forall i :: 0 <= i < j ==> !dones[i]
    ensures Run(Phase(UPDATE, c), dones) == (Phase(REMOVE, c), Repeat(DoUpdate, j + 1) + [DoComplete])
  {
    if j == 0 {
      RunRemoved(c, dones[2..]);
      assert dones[1..][1..] == dones[2..];
      var last := Run(Phase(REMOVE, c), dones[2..]);
      assert Hooks(Some(DoComplete)) + last.1 == [DoComplete];
      var rest := Run(Phase(COMPLETE, c), dones[1..]);
      assert rest == (Phase(REMOVE, c), [DoComplete]);
      assert Hooks(Some(DoUpdate)) + rest.1 == Repeat(DoUpdate, 1) + [DoComplete];
    } else {
      RunUpdating(c, dones[1..], j - 1);
      var rest := Run(Phase(UPDATE, c), dones[1..]);
      assert Hooks(Some(DoUpdate)) + rest.1 == Repeat(DoUpdate, j + 1) + [DoComplete];
    }
  }

  /** The lifecycle of an order that is never cancelled: `DoStart` once,
      `DoUpdate` until it first reports done on call `j` (the first call's
      `done` is never asked), `DoComplete` once, then removal. */
  lemma Lifecycle(dones: seq<bool>, j: nat)
    requires 1 <= j && j + 1 < |dones| && dones[j]
    requires forall i :: 1 <= i < j ==> !dones[i]
    ensures Run(Phase(START, false), dones) == (Phase(REMOVE, false), [DoStart] + Repeat(DoUpdate, j) + [DoComplete])
  {
    RunUpdating(false, dones[1..], j - 1);
    var rest := Run(Phase(UPDATE, false), dones[1..]);
    assert Hooks(Some(DoStart)) + rest.1 == [DoStart] + Repeat(DoUpdate, j) + [DoComplete];
  }

  /** A cancelled order runs `DoCancel` once and is removed marked
      cancelled. */
  lemma CancelLifecycle(c: bool, dones: seq<bool>)
    requires |dones| >= 1
    ensures Run(Phase(CANCEL, c), dones) == (Phase(REMOVE, true), [DoCancel])
  {
    RunRemoved(true, dones[1..]);
    var rest := Run(Phase(REMOVE, true), dones[1..]);
    assert Hooks(Some(DoCancel)) + rest.1 == [DoCancel];
  }

  class Order {
    var name: string
    var execution: Execution
    var cancelled: bool

    constructor(name: string)
      ensures this.name == name && execution == START && !cancelled
    {
      this.name := name;
      execution := START;
      cancelled := false;
    }

    /** `Update`: one step of the state machine; `hook` is the hook it ran. */
    method Update(done: bool) returns (hook: Option<Hook>)
      modifies this
      ensures (Phase(execution, cancelled), hook) == Step(Phase(old(execution), old(cancelled)), done)
      ensures name == old(name)
    {
      match execution {
        case START =>
          hook := Some(DoStart);
          execution := UPDATE;
        case UPDATE =>
          hook := Some(DoUpdate);
          if done {
            execution := COMPLETE;
          }
        case COMPLETE =>
          hook := Some(DoComplete);
          execution := REMOVE;
        case CANCEL =>
          hook := Some(DoCancel);
          cancelled := true;
          execution := REMOVE;
        case REMOVE =>
          hook := None;
      }
    }
  }

  /** What the handler tells its listeners when it dequeues an order. */
  datatype HandlerEvent =
    | OrderComplete(order: Order, cancelled: bool, ordersFinished: bool)
    | AllOrdersComplete(lastOrder: Order)

  function HeadFrame(q: seq<Order>): set<object>
  {
    if q == [] then {} else {q[0]}
  }

  class OrderHandler {
    var orderList: seq<Order>

    constructor()
      ensures orderList == []
    {
      orderList := [];
    }

    function CurrentOrder(): (r: Option<Order>)
      reads this
      ensures r.Some? <==> orderList != []
      ensures r.Some? ==> r.value == orderList[0]
    {
      if |orderList| > 0 then Some(orderList[0]) else None
    }

    /** `ClearOrders`: the queue is emptied; no order is told. */
    method ClearOrders()
      modifies this
      ensures orderList == []
    {
      orderList := [];
    }

    /** `CancelOrders`: only the head stays, marked CANCEL; an empty queue
        stays empty. */
    method CancelOrders()
      modifies this, HeadFrame(orderList)
      ensures old(orderList) == [] ==> orderList == []
      ensures old(orderList) != [] ==>
                orderList == [old(orderList[0])] && orderList[0].execution == CANCEL &&
                orderList[0].cancelled == old(orderList[0].cancelled) && orderList[0].name == old(orderList[0].name)
    {
      if |orderList| > 0 {
        var topOrder := orderList[0];
        topOrder.execution := CANCEL;
        orderList := [];
        orderList := orderList + [topOrder];
      }
    }

    /** `Add(order)`: the order joins the tail. */
    method AddOne(order: Order)
      modifies this
      ensures orderList == old(orderList) + [order]
    {
      orderList := orderList + [order];
    }

    /** `Add(orders)`: the orders join the tail in argument order; no order
        changes. */
    method Add(orders: seq<Order>)
      modifies this
      ensures orderList == old(orderList) + orders
    {
      var i := 0;
      while i < |orders|
        invariant 0 <= i <= |orders|
        invariant orderList == old(orderList) + orders[..i]
      {
        AddOne(orders[i]);
        assert orders[..i + 1] == orders[..i] + [orders[i]];
        i := i + 1;
      }
      assert orders[..i] == orders;
    }

    /** `Insert`: the orders go in front, in argument order. A running head
        is set back to START (not cancelled), so it starts again once the
        inserted orders are done. On an empty queue this is `Add`. */
    method Insert(orders: seq<Order>)
      modifies this, HeadFrame(orderList)
      ensures orderList == orders + old(orderList)
      ensures old(orderList) != [] ==>
                old(orderList[0]).execution == START &&
                old(orderList[0]).cancelled == old(orderList[0].cancelled) &&
                old(orderList[0]).name == old(orderList[0].name)
    {
      if |orderList| > 0 {
        var head := orderList[0];
        head.execution := START;
        var newList := orderList;
        var i := |orders| - 1;
        while i >= 0
          invariant -1 <= i < |orders|
          invariant newList == orders[i + 1..] + old(orderList)
          invariant orderList == old(orderList)
          invariant head.execution == START && head.cancelled == old(head.cancelled) && head.name == old(head.name)
        {
          newList := [orders[i]] + newList;
          i := i - 1;
        }
        orderList := [];
        var k := 0;
        while k < |newList|
          invariant 0 <= k <= |newList|
          invariant orderList == newList[..k]
          invariant head.execution == START && head.cancelled == old(head.cancelled) && head.name == old(head.name)
        {
          orderList := orderList + [newList[k]];
          k := k + 1;
        }
        assert newList[..k] == newList;
      } else {
        Add(orders);
      }
    }

    /** `UpdateOrders`: an empty queue does nothing. A removed head is
        dequeued and reported (with `ordersFinished` true, and an
        all-complete event, exactly when the queue is now empty); nothing
        else advances on that call. Any other head takes one `Update`. */
    method UpdateOrders(done: bool) returns (events: seq<HandlerEvent>, hook: Option<Hook>)
      modifies this, HeadFrame(orderList)
      ensures old(orderList) == [] ==> orderList == [] && events == [] && hook == None
      ensures old(orderList) != [] && old(orderList[0].execution) == REMOVE ==>
                var ord := old(orderList[0]);
                orderList == old(orderList[1..]) && hook == None &&
                ord.execution == REMOVE && ord.cancelled == old(ord.cancelled) &&
                events == [OrderComplete(ord, ord.cancelled, orderList == [])] +
                          (if orderList == [] then [AllOrdersComplete(ord)] else [])
      ensures old(orderList) != [] && old(orderList[0].execution) != REMOVE ==>
                orderList == old(orderList) && events == [] &&
                (Phase(orderList[0].execution, orderList[0].cancelled), hook) ==
                Step(Phase(old(orderList[0].execution), old(orderList[0].cancelled)), done)
    {
      events := [];
      hook := None;
      if |orderList| > 0 {
        if orderList[0].execution == REMOVE {
          var ord := orderList[0];
          orderList := orderList[1..];
          events := [OrderComplete(ord, ord.cancelled, |orderList| == 0)];
          if |orderList| == 0 {
            events := events + [AllOrdersComplete(ord)];
          }
          return;
        } else {
          hook := orderList[0].Update(done);
        }
      }
    }
  }
}
