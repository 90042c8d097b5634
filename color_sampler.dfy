/**
 * The colour sampler: the average colour of an image, computed from its
 * colour histogram (`getcolors`) as a count-weighted mean per channel,
 * floor-divided by the pixel count `width * height`.
 */
module ColorSampler {
  import opened MosaicTypes

  /** One histogram entry: how many pixels carry `color`. */
  datatype Bin = Bin(occurrences: nat, color: Color)

  datatype Channel = Red | Green | Blue

  function Component(c: Color, ch: Channel): int
  {
    match ch
    case Red => c.red
    case Green => c.green
    case Blue => c.blue
  }

  /** The sum of `occurrences * value` over the histogram, for one channel. */
  function WeightedSum(hist: seq<Bin>, ch: Channel): int
  {
    if hist == [] then 0
    else WeightedSum(hist[..|hist| - 1], ch) + hist[|hist| - 1].occurrences * Component(hist[|hist| - 1].color, ch)
  }

  /** The number of pixels the histogram accounts for. */
  function PixelCount(hist: seq<Bin>): nat
  {
    if hist == [] then 0 else PixelCount(hist[..|hist| - 1]) + hist[|hist| - 1].occurrences
  }

  /**
   * `average_color` of an image of the given size and histogram. The divisor
   * is positive whenever it is used, where Python's `//` and Dafny's `/` agree.
   */
  function AverageOf(width: nat, height: nat, hist: seq<Bin>): (r: Result<Color>)
    ensures r == Err(ZeroDivisionError) <==> width * height == 0
  {
    var pixels := width * height;
    if pixels == 0 then Err(ZeroDivisionError)
    else Ok(Color(WeightedSum(hist, Red) / pixels,
                  WeightedSum(hist, Green) / pixels,
                  WeightedSum(hist, Blue) / pixels))
  }

  /** The accumulation loop of `average_color`. */
  method AverageColor(width: nat, height: nat, hist: seq<Bin>) returns (r: Result<Color>)
    ensures r == AverageOf(width, height, hist)
  {
    var pixels := width * height;
    var totalRed, totalGreen, totalBlue := 0, 0, 0;
    var i := 0;
    while i < |hist|
      invariant 0 <= i <= |hist|
      invariant totalRed == WeightedSum(hist[..i], Red)
      invariant totalGreen == WeightedSum(hist[..i], Green)
      invariant totalBlue == WeightedSum(hist[..i], Blue)
    {
      var bin := hist[i];
      assert hist[..i + 1][..i] == hist[..i];
      totalRed := totalRed + bin.occurrences * bin.color.red;
      totalGreen := totalGreen + bin.occurrences * bin.color.green;
      totalBlue := totalBlue + bin.occurrences * bin.color.blue;
      i := i + 1;
    }
    assert hist[..i] == hist;
    if pixels == 0 {
      return Err(ZeroDivisionError);
    }
    return Ok(Color(totalRed / pixels, totalGreen / pixels, totalBlue / pixels));
  }

  lemma {:induction false} WeightedSumBounds(hist: seq<Bin>, ch: Channel, lo: int, hi: int)
    requires forall b | b in hist :: lo <= Component(b.color, ch) <= hi
    ensures PixelCount(hist) * lo <= WeightedSum(hist, ch) <= PixelCount(hist) * hi
    decreases |hist|
  {
    if hist != [] {
      var front, last := hist[..|hist| - 1], hist[|hist| - 1];
      assert forall b | b in front :: b in hist;
      WeightedSumBounds(front, ch, lo, hi);
      var v, o, p := Component(last.color, ch), last.occurrences, PixelCount(front);
      assert PixelCount(hist) == p + o;
      assert WeightedSum(hist, ch) == WeightedSum(front, ch) + o * v;
      MulMonotone(o, lo, v);
      MulMonotone(o, v, hi);
      MulDistributes(p, o, lo);
      MulDistributes(p, o, hi);
    }
  }

  /**
   * When the histogram accounts for every pixel, each channel of the average
   * lies between the smallest and the largest value that channel takes.
   */
  lemma AverageWithinRange(width: nat, height: nat, hist: seq<Bin>, ch: Channel, lo: int, hi: int)
    requires width * height > 0 && PixelCount(hist) == width * height
    requires forall b | b in hist :: lo <= Component(b.color, ch) <= hi
    ensures AverageOf(width, height, hist).Ok?
    ensures lo <= Component(AverageOf(width, height, hist).value, ch) <= hi
  {
    WeightedSumBounds(hist, ch, lo, hi);
    DivBetween(WeightedSum(hist, ch), width * height, lo, hi);
  }

  /** A region painted in one colour averages to exactly that colour. */
  lemma UniformAverage(width: nat, height: nat, hist: seq<Bin>, c: Color)
    requires width * height > 0 && PixelCount(hist) == width * height
    requires forall b | b in hist :: b.color == c
    ensures AverageOf(width, height, hist) == Ok(c)
  {
    AverageWithinRange(width, height, hist, Red, c.red, c.red);
    AverageWithinRange(width, height, hist, Green, c.green, c.green);
    AverageWithinRange(width, height, hist, Blue, c.blue, c.blue);
  }
}
