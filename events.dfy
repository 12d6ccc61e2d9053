/** The input events the widgets react to, reduced to what they read:
    the kind, the mouse button number and the absolute pointer position. */
module Events {
  import opened Geometry

  /** Button 1 is the primary button; 4 and 5 are the wheel turned up and down. */
  datatype Event =
    | MouseButtonDown(button: int, pos: Point)
    | MouseButtonUp(button: int, pos: Point)
    | OtherEvent
}
