/** Elements placed on the world map, and the points that position them.

    A Go `Point` is used two ways: as a plain value (copied on assignment,
    passed by value) and as the target of a `*Point` that several elements
    may share. `Coord` is the value; the class `Point` is the shared, mutable
    cell an `Element` refers to. */
module Elements {

  /** Go's `uint32`. */
  newtype u32 = x: int | 0 <= x < 0x1_0000_0000

  const MaxU32: u32 := 0xFFFF_FFFF

  /** `x + 1` in uint32 arithmetic: the largest value wraps to 0. */
  function Inc(x: u32): (r: u32)
    ensures r as int == (x as int + 1) % 0x1_0000_0000
  {
    if x == MaxU32 then 0 else x + 1
  }

  /** `x - 1` in uint32 arithmetic: 0 wraps to the largest value. */
  function Dec(x: u32): (r: u32)
    ensures r as int == (x as int - 1) % 0x1_0000_0000
  {
    if x == 0 then MaxU32 else x - 1
  }

  /** The value of a `Point`, as Go copies it. */
  datatype Coord = Coord(X: u32, Y: u32)

  /** A `Point` reached through a pointer: its coordinates change in place. */
  class Point {
    var X: u32
    var Y: u32

    constructor (c: Coord)
      ensures Value() == c
    {
      X := c.X;
      Y := c.Y;
    }

    /** The coordinates this point holds now. */
    function Value(): Coord
      reads this
    {
      Coord(X, Y)
    }
  }

  /** An element is a value; copying it copies the `Position` reference, so
      every copy sees a later `SetPosition` through any of them. */
  datatype Element = Element(Name: string, Representation: string, Position: Point?)
  {
    /** The element has a position iff its `Position` reference is not nil. */
    predicate HasPosition()
      ensures HasPosition() <==> Position != null
    {
      if Position == null then false else true
    }

    /** The text the element is drawn as. */
    function String(): (s: string)
      ensures s == Representation
    {
      Representation
    }

    /** Overwrites the coordinates of the shared point in place and returns
        the same element: the reference, the name and the representation are
        untouched, and every element sharing the point sees the new
        coordinates. A nil position is a nil dereference in the source. */
    method SetPosition(x: u32, y: u32) returns (r: Element)
      requires Position != null
      modifies Position
      ensures r == this
      ensures r.Name == Name && r.Representation == Representation && r.Position == Position
      ensures Position.Value() == Coord(x, y)
    {
      Position.X := x;
      Position.Y := y;
      r := this;
    }
  }

  /** A new element whose position is a fresh point holding `position`. */
  method NewElement(name: string, representation: string, position: Coord) returns (e: Element)
    ensures e.Name == name && e.Representation == representation
    ensures e.Position != null && fresh(e.Position)
    ensures e.Position.Value() == position
  {
    var p := new Point(position);
    e := Element(name, representation, p);
  }
}
