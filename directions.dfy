/// A stick deflection (Keys.py:192-305), reduced to its integer geometry.
/// The coordinates are those of an explicit `(x, y)` pair; a deflection built
/// from an angle carries the coordinates its trigonometry produced, which this
/// model takes as given.
module Directions {
  import opened Controls

  /** What `angle_for_show` remembers: the `(x, y)` tuple or the angle as given. */
  datatype Label = Point(px: int, py: int) | Angle(degrees: real)

  datatype Direction = Direction(stick: Stick, x: int, y: int, shown: Label)

  /** The tuple path of the constructor (Keys.py:228-232): the pair is used verbatim. */
  function FromPoint(stick: Stick, x: int, y: int): Direction
  {
    Direction(stick, x, y, Point(x, y))
  }

  /** `Direction.__eq__`: the same stick and the same `shown` label, whatever the coordinates. */
  predicate SameDirection(d: Direction, e: Direction)
  {
    d.stick == e.stick && d.shown == e.shown
  }

  /** Two tuple-built deflections are equal exactly when stick and pair agree. */
  lemma SameDirectionFromPoint(s: Stick, x: int, y: int, t: Stick, u: int, v: int)
    ensures SameDirection(FromPoint(s, x, y), FromPoint(t, u, v)) <==> s == t && x == u && y == v
  {
  }

  /** Equality ignores the coordinates: two angles that only differ in magnitude compare equal. */
  lemma SameDirectionIgnoresMagnitude(s: Stick, a: real, x: int, y: int, u: int, v: int)
    ensures SameDirection(Direction(s, x, y, Angle(a)), Direction(s, u, v, Angle(a)))
  {
  }

  /** The tilt towards low x, high x, low y and high y on a given stick. */
  function LeftTilt(s: Stick): Tilt { if s == Stick.LEFT then Tilt.LEFT else R_LEFT }
  function RightTilt(s: Stick): Tilt { if s == Stick.LEFT then Tilt.RIGHT else R_RIGHT }
  function DownTilt(s: Stick): Tilt { if s == Stick.LEFT then DOWN else R_DOWN }
  function UpTilt(s: Stick): Tilt { if s == Stick.LEFT then UP else R_UP }

  /** The stick a tilt belongs to. */
  function TiltStick(t: Tilt): Stick
  {
    if t in {UP, Tilt.RIGHT, DOWN, Tilt.LEFT} then Stick.LEFT else Stick.RIGHT
  }

  /** `getTilting` (Keys.py:283-305): x is compared with 128, y with 127. */
  function GetTilting(d: Direction): (r: seq<Tilt>)
    ensures |r| <= 2
    ensures forall i :: 0 <= i < |r| ==> TiltStick(r[i]) == d.stick
    ensures LeftTilt(d.stick) in r <==> d.x < Center
    ensures RightTilt(d.stick) in r <==> d.x > Center
    ensures DownTilt(d.stick) in r <==> d.y < Center - 1
    ensures UpTilt(d.stick) in r <==> d.y > Center - 1
  {
    var s := d.stick;
    (if d.x < Center then [LeftTilt(s)] else if d.x > Center then [RightTilt(s)] else [])
    + (if d.y < Center - 1 then [DownTilt(s)] else if d.y > Center - 1 then [UpTilt(s)] else [])
  }
}
