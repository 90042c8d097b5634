/**
 * Values shared by every component of the mosaic engine: the errors the
 * engine raises, the failure-compatible wrappers that carry them, colours
 * and rectangles, and Python's floor division.
 */
module MosaicTypes {

  /** The exceptions the engine lets escape. */
  datatype Error =
    | ZeroDivisionError
    | ValueError(message: string)

  datatype Option<+T> = None | Some(value: T)

  /** A value or the exception that replaced it. */
  datatype Result<+T> = Ok(value: T) | Err(error: Error)

  /** The outcome of a check that either passes or raises. */
  datatype Outcome = Pass | Fail(error: Error)

  /** An RGB triple; the engine computes on unbounded Python integers. */
  datatype Color = Color(red: int, green: int, blue: int)

  /** A rectangle given by its top-left and bottom-right corners. */
  datatype Rect = Rect(x1: int, y1: int, x2: int, y2: int)

  /** Python's `a // b`, which rounds toward negative infinity. */
  function FloorDiv(a: int, b: int): (q: int)
    requires b != 0
    ensures b > 0 ==> b * q <= a < b * q + b
    ensures b < 0 ==> b * q >= a > b * q + b
  {
    if b > 0 then a / b else (-a) / (-b)
  }

  lemma MulMonotone(d: int, a: int, b: int)
    requires d >= 0 && a <= b
    ensures d * a <= d * b
  {
    var k := b - a;
    assert d * b == d * a + d * k;
  }

  lemma MulDistributes(a: int, b: int, c: int)
    ensures (a + b) * c == a * c + b * c
  {
  }

  /** Euclidean division by a positive divisor is determined by its bounds. */
  lemma DivUnique(x: int, d: int, q: int)
    requires d > 0 && d * q <= x < d * q + d
    ensures x / d == q
  {
    var r := x / d;
    if r < q {
      MulMonotone(d, r + 1, q);
    } else if r > q {
      MulMonotone(d, q + 1, r);
    }
  }

  /** A quotient by a positive divisor inherits bounds that hold of the dividend per unit. */
  lemma DivBetween(s: int, d: int, lo: int, hi: int)
    requires d > 0 && d * lo <= s <= d * hi
    ensures lo <= s / d <= hi
  {
    var q := s / d;
    if q < lo {
      MulMonotone(d, q + 1, lo);
    } else if q > hi {
      MulMonotone(d, hi + 1, q);
    }
  }
}
