/** TileCell: one cell of the grid, holding at most one occupant. Setting
    the contents of an occupied cell and clearing an empty one are refused
    (the error log becomes a returned flag), so a cell is never
    overwritten. The cell is generic in its occupant's type, so that both
    grid-object variants can stand on it. */
module TileCells {
  import opened Wrappers

  class TileCell<T> {
    var position: (int, int)
    var areaValue: int
    var contents: Option<T>

    /** A new, empty cell at a grid position, with no area value (-1). */
    constructor(position: (int, int))
      ensures this.position == position && areaValue == -1 && contents == None
    {
      this.position := position;
      areaValue := -1;
      contents := None;
    }

    /** `ClearContents`: an occupied cell is emptied; clearing an empty cell
        is an error that changes nothing. */
    method ClearContents() returns (refused: bool)
      modifies this
      ensures refused <==> old(contents).None?
      ensures contents == None
      ensures position == old(position) && areaValue == old(areaValue)
    {
      if contents.Some? {
        contents := None;
        refused := false;
      } else {
        refused := true;
      }
    }

    /** `SetContents`: an empty cell takes the object; an occupied cell
        refuses it and keeps its occupant. */
    method SetContents(obj: T) returns (refused: bool)
      modifies this
      ensures refused <==> old(contents).Some?
      ensures contents == if refused then old(contents) else Some(obj)
      ensures position == old(position) && areaValue == old(areaValue)
    {
      if contents.Some? {
        refused := true;
        return;
      }
      contents := Some(obj);
      refused := false;
    }
  }
}
