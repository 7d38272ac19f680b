/** RectUtils: the corner helpers on Unity's integer rectangle `RectInt`
    and on the float rectangle `Rect`, and the conversion between them.
    A rectangle is anchored at its bottom-left corner (x, y). Integer fields
    are unbounded here (Int32 wrap-around is not modelled); float fields are
    modelled as reals. */
module RectUtils {

  datatype Vector2Int = Vector2Int(x: int, y: int)
  datatype Vector2 = Vector2(x: real, y: real)

  datatype RectInt = RectInt(x: int, y: int, width: int, height: int)
  datatype Rect = Rect(x: real, y: real, width: real, height: real)

  function Sub(a: Vector2Int, b: Vector2Int): Vector2Int
  {
    Vector2Int(a.x - b.x, a.y - b.y)
  }

  /** `ToV2`: the integer vector as a float vector. */
  function ToV2(v: Vector2Int): Vector2
  {
    Vector2(v.x as real, v.y as real)
  }

  /** `ToRect`: the same rectangle with float fields: position and size are
      copied exactly. */
  function ToRect(r: RectInt): (f: Rect)
    ensures f.x == r.x as real && f.y == r.y as real
    ensures f.width == r.width as real && f.height == r.height as real
  {
    Rect(r.x as real, r.y as real, r.width as real, r.height as real)
  }

  /** Nothing is lost: truncating the float fields gives the integer
      rectangle back. */
  lemma ToRectRoundTrip(r: RectInt)
    ensures var f := ToRect(r); RectInt(f.x.Floor, f.y.Floor, f.width.Floor, f.height.Floor) == r
  {
  }

  // Corners of an integer rectangle.
  function BL(r: RectInt): Vector2Int { Vector2Int(r.x, r.y) }
  function BR(r: RectInt): Vector2Int { var bl := BL(r); bl.(x := bl.x + r.width) }
  function TR(r: RectInt): Vector2Int { var br := BR(r); br.(y := br.y + r.height) }
  function TL(r: RectInt): Vector2Int { var bl := BL(r); bl.(y := bl.y + r.height) }

  // Corners of a float rectangle.
  function BLf(r: Rect): Vector2 { Vector2(r.x, r.y) }
  function BRf(r: Rect): Vector2 { var bl := BLf(r); bl.(x := bl.x + r.width) }
  function TRf(r: Rect): Vector2 { var br := BRf(r); br.(y := br.y + r.height) }
  function TLf(r: Rect): Vector2 { var bl := BLf(r); bl.(y := bl.y + r.height) }

  /** The four corners close up into the axis-aligned rectangle that `DrawGizmos`
      outlines: BL→BR is the bottom edge of length width, BL→TL the left edge
      of length height, and TR shares its x with BR and its y with TL. */
  lemma CornersFormRectangle(r: RectInt)
    ensures BL(r) == Vector2Int(r.x, r.y)
    ensures Sub(BR(r), BL(r)) == Vector2Int(r.width, 0)
    ensures Sub(TL(r), BL(r)) == Vector2Int(0, r.height)
    ensures TR(r).x == BR(r).x && TR(r).y == TL(r).y
    ensures Sub(TR(r), BL(r)) == Vector2Int(r.width, r.height)
  {
  }

  /** Converting to a float rectangle commutes with taking corners: the
      float corners of `ToRect(r)` are the integer corners of r. */
  lemma ToRectKeepsCorners(r: RectInt)
    ensures BLf(ToRect(r)) == ToV2(BL(r))
    ensures BRf(ToRect(r)) == ToV2(BR(r))
    ensures TRf(ToRect(r)) == ToV2(TR(r))
    ensures TLf(ToRect(r)) == ToV2(TL(r))
  {
  }
}
