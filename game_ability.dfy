/** GameAbility: the click-and-use protocol of a unit's ability. The first
    click draws the ability's area or path and the second cancels it
    (the counter toggles between 1 and 0); using the ability resolves the
    target cell's occupant and either starts the ability, or finishes it at
    once when there is no one to target. The game manager's drawing, the
    listeners and the concrete ability's hooks are recorded, in order, in a
    ghost trace of calls. */
module GameAbilities {
  import opened Wrappers
  import opened TileCells
  import opened Grids

  datatype AreaEffectType = AREA | WALKABLE_AREA | PATH

  /** The calls the ability makes, in the order made. */
  datatype Call =
    | DrawArea(origin: Option<TileCell<GridObject>>, range: int, walkable: bool)
    | DrawPath(origin: Option<TileCell<GridObject>>, dst: Option<TileCell<GridObject>>)
    | OnAbilityStart(user: GridObject, target: Option<TileCell<GridObject>>)
    | DoStartAbility(user: GridObject, target: Option<TileCell<GridObject>>)
    | DoCompleteAbility
    | OnAbilityComplete
    | Destroy

  /** The counter after one click: up by one, and back to 0 past 1. */
  function NextClick(clickCount: int): (r: int)
    ensures 0 <= clickCount <= 1 ==> r == 1 - clickCount
  {
    if clickCount + 1 > 1 then 0 else clickCount + 1
  }

  /** The counter after `n` clicks. */
  function Clicks(start: int, n: nat): int
  {
    if n == 0 then start else NextClick(Clicks(start, n - 1))
  }

  /** From 0 the counter alternates 1, 0, 1, 0, ...: after `n` clicks it is
      n mod 2, so every second click draws. */
  lemma {:induction false} ClicksAlternate(n: nat)
    ensures Clicks(0, n) == n % 2
  {
    if n > 0 {
      ClicksAlternate(n - 1);
    }
  }

  /** What finishing an ability calls. */
  function FinishCalls(): seq<Call>
  {
    [DoCompleteAbility, OnAbilityComplete, Destroy]
  }

  class GameAbility {
    var areaEffectType: AreaEffectType
    var range: int
    var user: Option<GridObject>
    var tempTargetCell: Option<TileCell<GridObject>>
    var tempTarget: Option<GridObject>
    var clickCount: int
    var destroyed: bool
    ghost var trace: seq<Call>

    constructor(areaEffectType: AreaEffectType, range: int)
      ensures this.areaEffectType == areaEffectType && this.range == range
      ensures user == None && tempTargetCell == None && tempTarget == None
      ensures clickCount == 0 && !destroyed && trace == []
    {
      this.areaEffectType := areaEffectType;
      this.range := range;
      user := None;
      tempTargetCell := None;
      tempTarget := None;
      clickCount := 0;
      destroyed := false;
      trace := [];
    }

    /** `UpdateClick`: the counter toggles; on the click that sets it to 1
        the area (plain or walkable, of the ability's range around the
        user's cell) or the path from the user's cell to `dst` is drawn and
        the result is true; on the click back to 0 nothing is drawn and the
        result is false. Drawing reads the user's cell: with no user yet
        (before any use) that click throws, after the counter has moved
        and before anything is drawn; `thrown` reports it. */
    method UpdateClick(dst: Option<TileCell<GridObject>>) returns (r: bool, thrown: bool)
      modifies this
      ensures clickCount == NextClick(old(clickCount))
      ensures thrown <==> clickCount != 0 && user.None?
      ensures r <==> clickCount != 0 && !thrown
      ensures areaEffectType == old(areaEffectType) && range == old(range) && user == old(user)
      ensures !r ==> trace == old(trace)
      ensures r && areaEffectType == AREA ==> trace == old(trace) + [DrawArea(user.value.location, range, false)]
      ensures r && areaEffectType == WALKABLE_AREA ==> trace == old(trace) + [DrawArea(user.value.location, range, true)]
      ensures r && areaEffectType == PATH ==> trace == old(trace) + [DrawPath(user.value.location, dst)]
      ensures tempTargetCell == old(tempTargetCell) && tempTarget == old(tempTarget) && destroyed == old(destroyed)
    {
      thrown := false;
      clickCount := clickCount + 1;
      if clickCount > 1 {
        clickCount := 0;
      }
      if clickCount == 0 {
        return false, false;
      }
      if user.None? {
        return false, true;
      }
      match areaEffectType {
        case AREA => trace := trace + [DrawArea(user.value.location, range, false)];
        case WALKABLE_AREA => trace := trace + [DrawArea(user.value.location, range, true)];
        case PATH => trace := trace + [DrawPath(user.value.location, dst)];
      }
      return true, false;
    }

    /** `FinishAbility`: the ability's completion hook, then the listeners,
        then the ability is destroyed. */
    method FinishAbility()
      modifies this
      ensures trace == old(trace) + FinishCalls() && destroyed
      ensures clickCount == old(clickCount) && user == old(user)
      ensures tempTargetCell == old(tempTargetCell) && tempTarget == old(tempTarget)
      ensures areaEffectType == old(areaEffectType) && range == old(range)
    {
      trace := trace + [DoCompleteAbility];
      trace := trace + [OnAbilityComplete];
      trace := trace + [Destroy];
      destroyed := true;
    }

    /** `UseAbility`: a given target cell replaces the stored one (a null
        target keeps it), and the occupant is read from the stored cell
        when there is one. With no occupant the ability finishes at once:
        no start event, no start hook, the counter untouched. Otherwise the
        start listeners are told, the counter is reset, and the start hook
        runs; both receive the target as passed. */
    method UseAbility(u: GridObject, target: Option<TileCell<GridObject>>)
      modifies this
      ensures user == Some(u)
      ensures tempTargetCell == if target.Some? then target else old(tempTargetCell)
      ensures tempTarget == if tempTargetCell.Some? then tempTargetCell.value.contents else old(tempTarget)
      ensures tempTarget.None? ==> trace == old(trace) + FinishCalls() && clickCount == old(clickCount) && destroyed
      ensures tempTarget.Some? ==>
                trace == old(trace) + [OnAbilityStart(u, target), DoStartAbility(u, target)] &&
                clickCount == 0 && destroyed == old(destroyed)
      ensures areaEffectType == old(areaEffectType) && range == old(range)
    {
      user := Some(u);
      if target.Some? {
        tempTargetCell := target;
      }
      if tempTargetCell.Some? {
        tempTarget := tempTargetCell.value.contents;
      }
      if tempTarget.None? {
        FinishAbility();
        return;
      }
      trace := trace + [OnAbilityStart(u, target)];
      clickCount := 0;
      trace := trace + [DoStartAbility(u, target)];
    }
  }
}
