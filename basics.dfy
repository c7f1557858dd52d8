/** Values shared by every part of the model: an optional value (the C#
    `null` of a nullable result) and the plane point. */
module Basics {

  /** A value that may be absent; stands for a nullable C# result. */
  datatype Option<+T> = None | Some(value: T)

  /** A point of the plane with exact real coordinates. Points compare by
      coordinates: two points with equal X and Y are the same vertex. */
  datatype Point = Point(x: real, y: real)

  function Min(a: real, b: real): real { if a <= b then a else b }

  function Max(a: real, b: real): real { if a >= b then a else b }
}
