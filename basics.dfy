/** Small value types shared by the canvas model. */
module Basics {

  /** A value that may be missing: `null`/`undefined`/`NaN` in the component. */
  datatype Option<T> = None | Some(value: T) {
    function GetOr(default: T): T {
      if Some? then value else default
    }
  }

  /** An integer point: a pointer position, a translate or a drag anchor. */
  datatype Point = Point(x: int, y: int) {
    function Minus(o: Point): Point {
      Point(x - o.x, y - o.y)
    }
  }

  /** `b` to the power `e`: the radix powers of the colour ids (16) and the zoom fractions (4 and 5). */
  function Pow(b: nat, e: nat): (p: nat)
    ensures b >= 1 ==> p >= 1
  {
    if e == 0 then 1 else b * Pow(b, e - 1)
  }

  /** A count coerced the way `for (i = 0; i < n; i++)` treats it: negatives run no iteration. */
  function Max0(n: int): nat {
    if n > 0 then n else 0
  }
}
