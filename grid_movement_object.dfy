/** GridObject (the older movement version): `SetLocation(null)` leaves
    and clears the current cell, but a move to a cell only asks the new
    cell to take the object; the old cell is not cleared. */
module GridMovements {
  import opened Wrappers
  import opened TileCells

  function CellFrame(c: Option<TileCell<GridObject>>): set<object>
  {
    if c.Some? then {c.value} else {}
  }

  class GridObject {
    var originOffset: (real, real)
    var location: Option<TileCell<GridObject>>

    constructor()
      ensures location == None && originOffset == (0.5, 0.0)
    {
      originOffset := (0.5, 0.0);
      location := None;
    }

    /** `SetLocation`: with no cell, the current cell (if any) is cleared
        and the location nulled; with a cell, that cell is asked to take
        this object and the location becomes that cell, whether or not it
        accepted. */
    method SetLocation(cell: Option<TileCell<GridObject>>)
      modifies this, CellFrame(location), CellFrame(cell)
      ensures location == cell
      ensures cell.None? && old(location).Some? ==> old(location.value).contents == None
      ensures cell.Some? ==>
                cell.value.contents ==
                (if old(cell.value.contents).None? then Some(this) else old(cell.value.contents))
      ensures cell.Some? && old(location).Some? && old(location) != cell ==>
                old(location.value).contents == old(location.value.contents)
      ensures old(location).Some? ==> old(location.value).position == old(location.value.position)
      ensures old(location).Some? ==> old(location.value).areaValue == old(location.value.areaValue)
      ensures cell.Some? ==> cell.value.position == old(cell.value.position)
      ensures cell.Some? ==> cell.value.areaValue == old(cell.value.areaValue)
      ensures originOffset == old(originOffset)
    {
      if cell.None? {
        if location.Some? {
          var refused := location.value.ClearContents();
          location := None;
        }
      } else {
        var refused := cell.value.SetContents(this);
        location := cell;
      }
    }
  }

  ghost predicate Linked(objs: set<GridObject>, cells: set<TileCell<GridObject>>)
    reads objs, cells
  {
    (forall o :: o in objs && o.location.Some? ==> o.location.value in cells && o.location.value.contents == Some(o))
    && (forall c :: c in cells && c.contents.Some? ==> c.contents.value in objs && c.contents.value.location == Some(c))
  }

  /** A move to an empty cell leaves the object listed in its old cell as
      well: the old cell's occupant no longer has that cell as location. */
  method MoveLeavesOldCell(a: GridObject, c1: TileCell<GridObject>, c2: TileCell<GridObject>)
    requires c1 != c2
    requires a.location == Some(c1) && c1.contents == Some(a) && c2.contents == None
    modifies a, c1, c2
    ensures a.location == Some(c2) && c2.contents == Some(a) && c1.contents == Some(a)
    ensures !Linked({a}, {c1, c2})
  {
    a.SetLocation(Some(c2));
    assert c1 in {c1, c2} && c1.contents.Some? && c1.contents.value.location != Some(c1);
  }

  /** Moving onto an occupied cell is refused by the cell but the location
      still changes. */
  method MoveOntoOccupied(a: GridObject, b: GridObject, c1: TileCell<GridObject>, c2: TileCell<GridObject>)
    requires a != b && c1 != c2
    requires a.location == Some(c1) && c1.contents == Some(a)
    requires b.location == Some(c2) && c2.contents == Some(b)
    modifies a, c1, c2
    ensures a.location == Some(c2) && c2.contents == Some(b) && c1.contents == Some(a)
    ensures !Linked({a, b}, {c1, c2})
  {
    a.SetLocation(Some(c2));
    assert a in {a, b} && a.location.Some? && a.location.value.contents != Some(a);
  }

  /** Setting the current cell again changes nothing: the cell refuses and
      the location stays. */
  method SetSameCell(a: GridObject, c: TileCell<GridObject>)
    requires a.location == Some(c) && c.contents == Some(a)
    modifies a, c
    ensures a.location == Some(c) && c.contents == Some(a)
  {
    a.SetLocation(Some(c));
  }
}
