/** Reals and boxes. */
module Geometry {

  function Max(a: real, b: real): real {
    if a >= b then a else b
  }

  function Min(a: real, b: real): real {
    if a <= b then a else b
  }

  /** A detected face: two corners, possibly swapped by the detector. */
  datatype Box = Box(x1: real, y1: real, x2: real, y2: real) {
    /** Sides of at least a pixel, as the crop takes them. */
    function Width(): real { Max(x2 - x1, 1.0) }
    function Height(): real { Max(y2 - y1, 1.0) }
    function CentreX(): real { x1 + Width() / 2.0 }
    function CentreY(): real { y1 + Height() / 2.0 }

    predicate Within(fw: nat, fh: nat) {
      0.0 <= x1 <= fw as real && 0.0 <= x2 <= fw as real
      && 0.0 <= y1 <= fh as real && 0.0 <= y2 <= fh as real
    }
  }
}
