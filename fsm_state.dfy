/** FSM: a state machine whose current state goes through three phases,
    ENTER_STATE, IN_STATE and EXIT_STATE, one phase change per `Update`.
    The delegates of a state act on a world of type `W`: the enter, exit
    and transition checks are predicates on the world, and the update
    delegates map the world to the new world. */
module FSM {
  import opened Wrappers

  datatype FSMStateType = ENTER_STATE | IN_STATE | EXIT_STATE

  datatype FSMTransitionCheck = FIRST | LAST

  /** A transition fires when its check holds of the world; with no
      destination it stops the machine. */
  datatype FSMTransition<!W> = FSMTransition(name: string, doCheck: W -> bool, dest: Option<FSMState<W>>)

  /** The first transition, in list order, whose check holds. */
  function FirstPassing<W>(ts: seq<FSMTransition<W>>, w: W): Option<FSMTransition<W>>
    decreases |ts|
  {
    if ts == [] then None
    else if ts[0].doCheck(w) then Some(ts[0])
    else FirstPassing(ts[1..], w)
  }

  /** `FirstPassing` finds a transition exactly when one passes, and then
      the one at the least passing index. */
  lemma {:induction false} FirstPassingIsFirst<W>(ts: seq<FSMTransition<W>>, w: W)
    ensures FirstPassing(ts, w).None? <==> forall i :: 0 <= i < |ts| ==> !ts[i].doCheck(w)
    ensures FirstPassing(ts, w).Some? ==>
              exists i :: 0 <= i < |ts| && FirstPassing(ts, w) == Some(ts[i]) && ts[i].doCheck(w) &&
                          forall j :: 0 <= j < i ==> !ts[j].doCheck(w)
    decreases |ts|
  {
    if ts != [] && !ts[0].doCheck(w) {
      FirstPassingIsFirst(ts[1..], w);
      assert forall i :: 1 <= i < |ts| ==> ts[i] == ts[1..][i - 1];
      if FirstPassing(ts[1..], w).Some? {
        var k :| 0 <= k < |ts[1..]| && FirstPassing(ts[1..], w) == Some(ts[1..][k]) && ts[1..][k].doCheck(w) &&
                 forall j :: 0 <= j < k ==> !ts[1..][j].doCheck(w);
        assert FirstPassing(ts, w) == Some(ts[k + 1]);
      }
    } else if ts != [] {
      assert FirstPassing(ts, w) == Some(ts[0]);
    }
  }

  class FSMState<W> {
    var name: string
    var changedThisFrame: bool
    var fsmStateType: FSMStateType
    var fsmTransitionCheck: FSMTransitionCheck
    /** `None` is a null transition list. */
    var transitions: Option<seq<FSMTransition<W>>>
    var doEnter: Option<W -> bool>
    var doExit: Option<W -> bool>
    var doUpdate: Option<W -> W>
    var doFixedUpdate: Option<W -> W>
    var doLateUpdate: Option<W -> W>

    /** A state in its ENTER phase, checking transitions after its update,
        with no transitions and no delegates. */
    constructor(stateName: string)
      ensures name == stateName && !changedThisFrame && fsmStateType == ENTER_STATE
      ensures fsmTransitionCheck == LAST && transitions == Some([])
      ensures doEnter.None? && doExit.None? && doUpdate.None? && doFixedUpdate.None? && doLateUpdate.None?
    {
      name := stateName;
      changedThisFrame := false;
      fsmStateType := ENTER_STATE;
      fsmTransitionCheck := LAST;
      transitions := Some([]);
      doEnter := None;
      doExit := None;
      doUpdate := None;
      doFixedUpdate := None;
      doLateUpdate := None;
    }

    /** The `State` setter: the phase is set and the frame marked changed. */
    method SetState(s: FSMStateType)
      modifies this`fsmStateType, this`changedThisFrame
      ensures fsmStateType == s && changedThisFrame
    {
      changedThisFrame := true;
      fsmStateType := s;
    }

    method InitializeTransitions(ts: seq<FSMTransition<W>>)
      modifies this`transitions
      ensures transitions == Some(ts)
    {
      transitions := Some(ts);
    }

    method InitializeMethods(enter: Option<W -> bool>, update: Option<W -> W>, exit: Option<W -> bool>)
      modifies this`doEnter, this`doUpdate, this`doExit
      ensures doEnter == enter && doUpdate == update && doExit == exit
    {
      doEnter := enter;
      doUpdate := update;
      doExit := exit;
    }

    /** The transition `CheckTransitions` picks in world `w`. */
    function Passing(w: W): Option<FSMTransition<W>>
      reads this`transitions
    {
      if transitions.None? then None else FirstPassing(transitions.value, w)
    }

    /** `CheckTransitions`: the first transition whose check holds, or none
        when none does or the list is null. */
    method CheckTransitions(w: W) returns (r: Option<FSMTransition<W>>)
      ensures r == Passing(w)
    {
      if transitions.None? {
        return None;
      }
      var ts := transitions.value;
      var i := 0;
      while i < |ts|
        invariant 0 <= i <= |ts|
        invariant FirstPassing(ts, w) == FirstPassing(ts[i..], w)
      {
        assert ts[i..][0] == ts[i] && ts[i..][1..] == ts[i + 1..];
        if ts[i].doCheck(w) {
          return Some(ts[i]);
        }
        i := i + 1;
      }
      return None;
    }

    /** `EnterState`: a missing enter delegate counts as done. */
    function EnterState(w: W): bool
      reads this`doEnter
    {
      doEnter.None? || doEnter.value(w)
    }

    /** `ExitState`: a missing exit delegate counts as done. */
    function ExitState(w: W): bool
      reads this`doExit
    {
      doExit.None? || doExit.value(w)
    }

    /** The world after the update delegate, if any. */
    function RunUpdate(w: W): W
      reads this`doUpdate
    {
      if doUpdate.Some? then doUpdate.value(w) else w
    }

    /** `UpdateStateFixed`: the fixed-update delegate runs only in the IN
        phase and not in a frame whose phase was just set. */
    function UpdateStateFixed(w: W): (r: W)
      reads this`changedThisFrame, this`fsmStateType, this`doFixedUpdate
      ensures changedThisFrame || fsmStateType != IN_STATE || doFixedUpdate.None? ==> r == w
      ensures !changedThisFrame && fsmStateType == IN_STATE && doFixedUpdate.Some? ==> r == doFixedUpdate.value(w)
    {
      if changedThisFrame then w
      else if doFixedUpdate.Some? && fsmStateType == IN_STATE then doFixedUpdate.value(w)
      else w
    }

    /** `UpdateStateLate`: the same gating for the late-update delegate. */
    function UpdateStateLate(w: W): (r: W)
      reads this`changedThisFrame, this`fsmStateType, this`doLateUpdate
      ensures changedThisFrame || fsmStateType != IN_STATE || doLateUpdate.None? ==> r == w
      ensures !changedThisFrame && fsmStateType == IN_STATE && doLateUpdate.Some? ==> r == doLateUpdate.value(w)
    {
      if changedThisFrame then w
      else if doLateUpdate.Some? && fsmStateType == IN_STATE then doLateUpdate.value(w)
      else w
    }

    /** What `UpdateState` returns: the transition taken and the world. */
    ghost function UpdateOutcome(w: W): (Option<FSMTransition<W>>, W)
      reads this`transitions, this`doUpdate, this`fsmTransitionCheck
    {
      if fsmTransitionCheck == FIRST then
        if Passing(w).Some? then (Passing(w), w) else (None, RunUpdate(w))
      else
        (Passing(RunUpdate(w)), RunUpdate(w))
    }

    /** `UpdateState`: with FIRST the transitions are checked before the
        update delegate, which is skipped when one fires; with LAST the
        update runs first and the transitions see the updated world. The
        changed-this-frame mark is reset. */
    method UpdateState(w: W) returns (t: Option<FSMTransition<W>>, w': W)
      modifies this`changedThisFrame
      ensures (t, w') == UpdateOutcome(w) && !changedThisFrame
      ensures fsmTransitionCheck == FIRST && Passing(w).Some? ==> t == Passing(w) && w' == w
      ensures fsmTransitionCheck == FIRST && Passing(w).None? ==> t.None? && w' == RunUpdate(w)
      ensures fsmTransitionCheck == LAST ==> w' == RunUpdate(w) && t == Passing(w')
    {
      changedThisFrame := false;
      if fsmTransitionCheck == FIRST {
        t := CheckTransitions(w);
        if t.Some? {
          return t, w;
        }
        w' := w;
        if doUpdate.Some? {
          w' := doUpdate.value(w);
        }
        return None, w';
      } else {
        w' := w;
        if doUpdate.Some? {
          w' := doUpdate.value(w);
        }
        t := CheckTransitions(w');
      }
    }
  }

  class FSMStateMachine<W> {
    var head: Option<FSMState<W>>
    var current: Option<FSMState<W>>
    var finalTransition: Option<FSMTransition<W>>

    constructor()
      ensures head.None? && current.None? && finalTransition.None?
    {
      head := None;
      current := None;
      finalTransition := None;
    }

    /** A pending transition exists exactly while the current state is
        exiting; a stopped machine has none. */
    ghost predicate Valid()
      reads this, Current()`fsmStateType
    {
      (current.None? ==> finalTransition.None?) &&
      (current.Some? ==> (current.value.fsmStateType == EXIT_STATE <==> finalTransition.Some?))
    }

    function Current(): set<FSMState<W>>
      reads this
    {
      if current.Some? then {current.value} else {}
    }

    /** The states an `Update` may change: the current one and the
        destination of the pending transition. */
    function Touched(): set<FSMState<W>>
      reads this
    {
      Current() +
      if finalTransition.Some? && finalTransition.value.dest.Some? then {finalTransition.value.dest.value} else {}
    }

    /** `Clear`: the machine stops. */
    method Clear()
      modifies this
      ensures head.None? && current.None? && finalTransition.None? && Valid()
    {
      head := None;
      current := None;
      finalTransition := None;
    }

    /** `Set`: a running machine is cleared first; a state is then entered
        afresh as both head and current, while no state leaves the machine
        as it is after the clearing. */
    method Set(state: Option<FSMState<W>>)
      modifies this, (if state.Some? then {state.value} else {})`fsmStateType,
               (if state.Some? then {state.value} else {})`changedThisFrame
      ensures state.None? && old(head).None? ==>
                head == old(head) && current == old(current) && finalTransition == old(finalTransition)
      ensures state.None? && old(head).Some? ==> head.None? && current.None? && finalTransition.None?
      ensures state.Some? ==> head == state && current == state && finalTransition.None? &&
                              state.value.fsmStateType == ENTER_STATE && state.value.changedThisFrame && Valid()
    {
      if head.Some? {
        Clear();
      }
      if state.None? {
        return;
      }
      head := state;
      Move(state.value);
      finalTransition := None;
    }

    /** `Move`: the state becomes current, in its ENTER phase. */
    method Move(newState: FSMState<W>)
      modifies this`current, this`finalTransition, newState`fsmStateType, newState`changedThisFrame
      ensures current == Some(newState) && finalTransition.None?
      ensures newState.fsmStateType == ENTER_STATE && newState.changedThisFrame && Valid()
    {
      current := Some(newState);
      newState.SetState(ENTER_STATE);
      finalTransition := None;
    }

    /** `Update`: one phase step of the current state. ENTER moves to IN
        once the state's enter delegate agrees; IN runs the state's update
        and, when a transition fires, records it and moves to EXIT; EXIT,
        once the exit delegate agrees, enters the transition's destination,
        or stops the machine when it has none. With no current state (never
        set, or stopped) the switch throws: `thrown` reports it and nothing
        changes. */
    method Update(w: W) returns (w': W, thrown: bool)
      requires current.Some? && current.value.fsmStateType == EXIT_STATE ==> finalTransition.Some?
      modifies this, Touched()`fsmStateType, Touched()`changedThisFrame
      ensures thrown <==> old(current).None?
      ensures thrown ==> w' == w && head == old(head) && current == old(current) && finalTransition == old(finalTransition)
      ensures old(Valid()) ==> Valid()
      ensures old(current).Some? && old(current.value.fsmStateType) == ENTER_STATE ==>
                w' == w && head == old(head) && current == old(current) && finalTransition == old(finalTransition) &&
                if old(current.value.EnterState(w))
                then current.value.fsmStateType == IN_STATE && current.value.changedThisFrame
                else current.value.fsmStateType == ENTER_STATE &&
                     current.value.changedThisFrame == old(current.value.changedThisFrame)
      ensures old(current).Some? && old(current.value.fsmStateType) == IN_STATE ==>
                var o := old(current.value.UpdateOutcome(w));
                w' == o.1 && head == old(head) && current == old(current) &&
                if o.0.Some?
                then finalTransition == o.0 && current.value.fsmStateType == EXIT_STATE && current.value.changedThisFrame
                else finalTransition == old(finalTransition) && current.value.fsmStateType == IN_STATE &&
                     !current.value.changedThisFrame
      ensures old(current).Some? && old(current.value.fsmStateType) == EXIT_STATE ==>
                w' == w &&
                (!old(current.value.ExitState(w)) ==>
                   head == old(head) && current == old(current) && finalTransition == old(finalTransition) &&
                   current.value.fsmStateType == EXIT_STATE &&
                   current.value.changedThisFrame == old(current.value.changedThisFrame)) &&
                (old(current.value.ExitState(w)) && old(finalTransition.value.dest).Some? ==>
                   head == old(head) && current == old(finalTransition.value.dest) && finalTransition.None? &&
                   current.value.fsmStateType == ENTER_STATE && current.value.changedThisFrame) &&
                (old(current.value.ExitState(w)) && old(finalTransition.value.dest).None? ==>
                   head.None? && current.None? && finalTransition.None?)
    {
      thrown := false;
      if current.None? {
        return w, true;
      }
      var c := current.value;
      w' := w;
      match c.fsmStateType
      case ENTER_STATE =>
        if c.EnterState(w) {
          c.SetState(IN_STATE);
        }
      case IN_STATE =>
        var fsmTrans;
        fsmTrans, w' := c.UpdateState(w);
        if fsmTrans.Some? {
          finalTransition := fsmTrans;
          c.SetState(EXIT_STATE);
        }
      case EXIT_STATE =>
        if c.ExitState(w) {
          if finalTransition.value.dest.Some? {
            Move(finalTransition.value.dest.value);
          } else {
            Clear();
          }
        }
    }
  }
}
