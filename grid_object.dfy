/** GridObject (the grid version with ability slots): an object standing on
    at most one cell. `SetLocation` first leaves the current cell, clearing
    it, then enters the new one. The four ability slots and the origin
    offset are fields `SetLocation` never touches; an ability is held by
    its handle. */
module Grids {
  import opened Wrappers
  import opened TileCells

  /** The cell an optional location names, as a frame. */
  function CellFrame(c: Option<TileCell<GridObject>>): set<object>
  {
    if c.Some? then {c.value} else {}
  }

  class GridObject {
    var originOffset: (real, real)
    var location: Option<TileCell<GridObject>>
    var attackAbility: Option<nat>
    var magicAbility: Option<nat>
    var skillAbility: Option<nat>
    var itemAbility: Option<nat>

    constructor()
      ensures location == None && originOffset == (0.5, 0.0)
      ensures attackAbility == None && magicAbility == None && skillAbility == None && itemAbility == None
    {
      originOffset := (0.5, 0.0);
      location := None;
      attackAbility := None;
      magicAbility := None;
      skillAbility := None;
      itemAbility := None;
    }

    /** `SetLocation`: the old cell is cleared, then the new cell, if any,
        is asked to take this object. The location is the new cell even
        when that cell refuses because someone else stands on it. */
    method SetLocation(cell: Option<TileCell<GridObject>>)
      modifies this, CellFrame(location), CellFrame(cell)
      ensures location == cell
      ensures old(location).Some? && old(location) != cell ==> old(location.value).contents == None
      ensures cell.Some? ==>
                cell.value.contents ==
                (if old(cell.value.contents).None? || old(location) == cell then Some(this)
                 else old(cell.value.contents))
      ensures old(location).Some? ==> old(location.value).position == old(location.value.position)
      ensures old(location).Some? ==> old(location.value).areaValue == old(location.value.areaValue)
      ensures cell.Some? ==> cell.value.position == old(cell.value.position)
      ensures cell.Some? ==> cell.value.areaValue == old(cell.value.areaValue)
      ensures originOffset == old(originOffset)
      ensures attackAbility == old(attackAbility) && magicAbility == old(magicAbility)
      ensures skillAbility == old(skillAbility) && itemAbility == old(itemAbility)
    {
      if location.Some? {
        var refused := location.value.ClearContents();
        location := None;
      }
      if cell.Some? {
        var refused := cell.value.SetContents(this);
        location := cell;
      }
    }
  }

  /** The object-cell link is two-way: every placed object is the contents
      of its cell, and every occupant has the cell as its location. */
  ghost predicate Linked(objs: set<GridObject>, cells: set<TileCell<GridObject>>)
    reads objs, cells
  {
    (forall o :: o in objs && o.location.Some? ==> o.location.value in cells && o.location.value.contents == Some(o))
    && (forall c :: c in cells && c.contents.Some? ==> c.contents.value in objs && c.contents.value.location == Some(c))
  }

  /** While the link holds, no object occupies two cells. */
  lemma OneCellEach(objs: set<GridObject>, cells: set<TileCell<GridObject>>, c1: TileCell<GridObject>, c2: TileCell<GridObject>)
    requires Linked(objs, cells)
    requires c1 in cells && c2 in cells && c1.contents.Some? && c1.contents == c2.contents
    ensures c1 == c2
  {
    var o := c1.contents.value;
    assert o.location == Some(c1) && o.location == Some(c2);
  }

  /** A move to an empty cell, to the object's own cell, or off the grid
      keeps the link two-way, so over any such sequence of moves it holds
      throughout. */
  method MoveKeepsLinked(o: GridObject, cell: Option<TileCell<GridObject>>,
                         ghost objs: set<GridObject>, ghost cells: set<TileCell<GridObject>>)
    requires Linked(objs, cells) && o in objs
    requires cell.Some? ==> cell.value in cells && (cell.value.contents.None? || cell.value.contents == Some(o))
    modifies o, cells
    ensures Linked(objs, cells)
    ensures o.location == cell
  {
    ghost var oldLoc := o.location;
    o.SetLocation(cell);
    forall p | p in objs && p.location.Some?
      ensures p.location.value in cells && p.location.value.contents == Some(p)
    {
      if p != o {
        assert p.location == old(p.location);
      }
    }
    forall c | c in cells && c.contents.Some?
      ensures c.contents.value in objs && c.contents.value.location == Some(c)
    {
      if cell.Some? && c == cell.value {
      } else if oldLoc.Some? && c == oldLoc.value {
      } else {
        assert c.contents == old(c.contents);
        assert old(c.contents.value.location) == Some(c);
        assert c.contents.value != o;
      }
    }
  }

  /** Moving onto an occupied cell breaks the link: the mover claims the
      cell, its old cell is empty, and the cell still holds the other
      object. */
  method MoveOntoOccupied(a: GridObject, b: GridObject, c1: TileCell<GridObject>, c2: TileCell<GridObject>)
    requires a != b && c1 != c2
    requires a.location == Some(c1) && c1.contents == Some(a)
    requires b.location == Some(c2) && c2.contents == Some(b)
    modifies a, c1, c2
    ensures a.location == Some(c2) && c2.contents == Some(b) && c1.contents == None
    ensures !Linked({a, b}, {c1, c2})
  {
    a.SetLocation(Some(c2));
    assert a in {a, b} && a.location.Some? && a.location.value.contents != Some(a);
  }
}
