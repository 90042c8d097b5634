/**
 * The argument checks of the image wrapper. `resize` and `crop` refuse any
 * negative component of the size or rectangle they are given; `reratio`
 * refuses a negative ratio. Each raises ValueError with its own message.
 */
module ImageGuards {
  import opened MosaicTypes
  import opened Lattice

  /** Python's `any(v < 0 for v in values)`, scanning left to right. */
  function AnyNegative(values: seq<int>): (r: bool)
    ensures r <==> exists k :: 0 <= k < |values| && values[k] < 0
  {
    if values == [] then false
    else if values[0] < 0 then true
    else
      var rest := AnyNegative(values[1..]);
      assert forall k :: 1 <= k < |values| ==> values[k] == values[1..][k - 1];
      rest
  }

  /** The check at the top of `resize(size)`. */
  function CheckSize(size: seq<int>): (r: Outcome)
    ensures r == Pass <==> forall k :: 0 <= k < |size| ==> size[k] >= 0
    ensures r != Pass ==> r == Fail(ValueError("Size could not contain negative values."))
  {
    if AnyNegative(size) then Fail(ValueError("Size could not contain negative values.")) else Pass
  }

  /** The check at the top of `crop(rect)`. */
  function CheckRect(rect: seq<int>): (r: Outcome)
    ensures r == Pass <==> forall k :: 0 <= k < |rect| ==> rect[k] >= 0
    ensures r != Pass ==> r == Fail(ValueError("Rectangle could not contain negative values."))
  {
    if AnyNegative(rect) then Fail(ValueError("Rectangle could not contain negative values.")) else Pass
  }

  /** The check at the top of `reratio(ratio)`: a ratio of zero passes. */
  function CheckRatio(ratio: real): (r: Outcome)
    ensures r == Pass <==> ratio >= 0.0
    ensures r != Pass ==> r == Fail(ValueError("Ratio could not assume negative values."))
  {
    if ratio < 0.0 then Fail(ValueError("Ratio could not assume negative values.")) else Pass
  }

  /** A lattice rectangle, written as the tuple `crop` receives. */
  function RectValues(rect: Rect): seq<int>
  {
    [rect.x1, rect.y1, rect.x2, rect.y2]
  }

  /** Cropping to a rectangle with non-negative corners is never refused. */
  lemma NonNegativeRectPasses(rect: Rect)
    requires rect.x1 >= 0 && rect.y1 >= 0 && rect.x2 >= 0 && rect.y2 >= 0
    ensures CheckRect(RectValues(rect)) == Pass
  {
    var vs := RectValues(rect);
    assert forall k :: 0 <= k < |vs| ==> vs[k] >= 0 by {
      forall k | 0 <= k < |vs| ensures vs[k] >= 0 {
        assert k == 0 || k == 1 || k == 2 || k == 3;
      }
    }
  }

  /**
   * Every rectangle of a lattice passes the check of `crop`: extracting the
   * average colour of each lattice tile never raises ValueError.
   */
  lemma LatticeRectsPassCrop(width: nat, height: nat, cols: int, rectsHeight: Option<int>, k: int)
    requires cols > 0 && RowCount(cols, rectsHeight) > 0
    requires 0 <= k < |MakeLattice(width, height, cols, rectsHeight).value|
    ensures CheckRect(RectValues(MakeLattice(width, height, cols, rectsHeight).value[k])) == Pass
  {
    var rect := MakeLattice(width, height, cols, rectsHeight).value[k];
    LatticeWithinSurface(width, height, cols, rectsHeight, k);
    NonNegativeRectPasses(rect);
  }
}
