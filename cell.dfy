/** One position of the automaton: its liveness and the colour it is drawn in.
    The colour channels are single-precision floats in the program; here they are
    reals, which agree with the program on every constant it assigns (0.0, 1.0). */
module Cells {

  /** The two opposite corners of an axis-aligned rectangle on screen, as handed
      to the graphics library's corner-based rectangle constructor. */
  datatype Corners = Corners(x0: real, y0: real, x1: real, y1: real)

  datatype Cell = Cell(r: real, g: real, b: real, active: bool)
  {
    /** The RGBA colour of the cell; the alpha channel is always opaque. */
    function Color(): (rgba: seq<real>)
      ensures |rgba| == 4 && rgba[3] == 1.0
      ensures rgba[0] == r && rgba[1] == g && rgba[2] == b
    {
      [r, g, b, 1.0]
    }

    /** Sets liveness; the colour is left as it was. */
    function SetActive(alive: bool): (c: Cell)
      ensures c.active == alive
      ensures c.Color() == Color()
    {
      this.(active := alive)
    }

    /** Repaints the cell; its liveness is left as it was. */
    function ChangeColor(red: real, green: real, blue: real): (c: Cell)
      ensures c.active == active
      ensures c.Color() == [red, green, blue, 1.0]
    {
      this.(r := red, g := green, b := blue)
    }

    /** The screen rectangle of width `width` and height `height` whose top-left
        corner is (x, y). The cell itself does not influence the rectangle. */
    function ToRectangle(x: real, y: real, width: real, height: real): (rect: Corners)
      ensures rect.x1 - rect.x0 == width && rect.y1 - rect.y0 == height
      ensures rect.x0 == x && rect.y0 == y
    {
      Corners(x, y, x + width, y + height)
    }
  }

  /** A dead cell painted with the given channels. */
  function NewCell(red: real, green: real, blue: real): (c: Cell)
    ensures !c.active
    ensures c.Color() == [red, green, blue, 1.0]
  {
    Cell(red, green, blue, false)
  }
}
