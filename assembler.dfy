/**
 * The mosaic assembler. A `Mosaic` holds the output canvas and the list of
 * (rectangle, tile image) pairs to paste onto it. The pastes happen lazily,
 * once, the first time the mosaic is shown or saved.
 *
 * The canvas is modelled by the log of pastes applied to it: what a pixel
 * shows is the image of the last paste whose rectangle covers it.
 */
module Assembler {
  import opened MosaicTypes
  import opened Lattice

  /** One `paste(img, rect)` onto the canvas. */
  datatype Paste<Img> = Paste(rect: Rect, img: Img)

  /**
   * The tile image visible at pixel (x, y) after the pastes in `log`: the
   * last one covering it, or None where the canvas itself shows through.
   */
  function ShownAt<Img>(log: seq<Paste<Img>>, x: int, y: int): (r: Option<Img>)
    ensures r == None <==> forall k :: 0 <= k < |log| ==> !Contains(log[k].rect, x, y)
    ensures r.Some? ==> exists k :: 0 <= k < |log| && Contains(log[k].rect, x, y) && log[k].img == r.value
  {
    if log == [] then None
    else if Contains(log[|log| - 1].rect, x, y) then Some(log[|log| - 1].img)
    else ShownAt(log[..|log| - 1], x, y)
  }

  /** No two pastes of `log` overlap. */
  predicate PairwiseDisjoint<Img>(log: seq<Paste<Img>>)
  {
    forall a, b :: 0 <= a < b < |log| ==> Disjoint(log[a].rect, log[b].rect)
  }

  /**
   * After a run of non-overlapping pastes, a pixel inside the `k`-th one
   * shows that paste's image, whatever was on the canvas before.
   */
  lemma {:induction false} ShownAfterDisjoint<Img>(before: seq<Paste<Img>>, log: seq<Paste<Img>>, k: int, x: int, y: int)
    requires PairwiseDisjoint(log) && 0 <= k < |log| && Contains(log[k].rect, x, y)
    ensures ShownAt(before + log, x, y) == Some(log[k].img)
    decreases |log|
  {
    var all := before + log;
    var last := |log| - 1;
    assert all[|all| - 1] == log[last];
    if k < last {
      assert !Contains(log[last].rect, x, y) by {
        assert Disjoint(log[k].rect, log[last].rect);
      }
      var front := log[..last];
      assert all[..|all| - 1] == before + front;
      ShownAfterDisjoint(before, front, k, x, y);
    }
  }

  /** A pixel no paste of `log` covers shows whatever it showed before. */
  lemma {:induction false} ShownOutside<Img>(before: seq<Paste<Img>>, log: seq<Paste<Img>>, x: int, y: int)
    requires forall k :: 0 <= k < |log| ==> !Contains(log[k].rect, x, y)
    ensures ShownAt(before + log, x, y) == ShownAt(before, x, y)
    decreases |log|
  {
    if log != [] {
      var all, front := before + log, log[..|log| - 1];
      assert all[|all| - 1] == log[|log| - 1];
      assert !Contains(all[|all| - 1].rect, x, y);
      assert all[..|all| - 1] == before + front;
      ShownOutside(before, front, x, y);
    } else {
      assert before + log == before;
    }
  }

  /** Pasting one image onto each rectangle of `rects`, in order. */
  function PastesOnto<Img>(rects: seq<Rect>, imgs: seq<Img>): (log: seq<Paste<Img>>)
    requires |rects| == |imgs|
    ensures |log| == |rects|
    ensures forall k :: 0 <= k < |log| ==> log[k] == Paste(rects[k], imgs[k])
  {
    if rects == [] then [] else [Paste(rects[0], imgs[0])] + PastesOnto(rects[1..], imgs[1..])
  }

  /**
   * A mosaic whose tiles are the lattice rectangles paired with their
   * matched images shows, at every pixel of the `k`-th rectangle, the `k`-th
   * image.
   */
  lemma LatticeMosaicShowsMatches<Img>(width: nat, height: nat, cols: int, rectsHeight: Option<int>,
                                      imgs: seq<Img>, before: seq<Paste<Img>>, k: int, x: int, y: int)
    requires cols > 0 && RowCount(cols, rectsHeight) > 0
    requires |imgs| == |MakeLattice(width, height, cols, rectsHeight).value|
    requires 0 <= k < |imgs| && Contains(MakeLattice(width, height, cols, rectsHeight).value[k], x, y)
    ensures ShownAt(before + PastesOnto(MakeLattice(width, height, cols, rectsHeight).value, imgs), x, y)
         == Some(imgs[k])
  {
    var rects := MakeLattice(width, height, cols, rectsHeight).value;
    var log := PastesOnto(rects, imgs);
    forall a, b | 0 <= a < b < |log| ensures Disjoint(log[a].rect, log[b].rect) {
      LatticeDisjoint(width, height, cols, rectsHeight, a, b);
    }
    ShownAfterDisjoint(before, log, k, x, y);
  }

  class Mosaic<Img> {
    /** `_mosaic`: the pastes applied to the output canvas so far. */
    var canvas: seq<Paste<Img>>
    /** `_tiles`: the (rectangle, image) pairs to paste. */
    var tiles: seq<Paste<Img>>
    /** `_initialized`: whether the tiles have been pasted. */
    var initialized: bool

    constructor (canvas: seq<Paste<Img>>, tiles: seq<Paste<Img>>)
      ensures this.canvas == canvas && this.tiles == tiles && !initialized
    {
      this.canvas := canvas;
      this.tiles := tiles;
      initialized := false;
    }

    /** `_initialize`: pastes every tile, in order, the first time only. */
    method Initialize()
      modifies this
      ensures initialized && tiles == old(tiles)
      ensures old(initialized) ==> canvas == old(canvas)
      ensures !old(initialized) ==> canvas == old(canvas) + old(tiles)
    {
      if !initialized {
        var i := 0;
        while i < |tiles|
          invariant 0 <= i <= |tiles| && tiles == old(tiles)
          invariant canvas == old(canvas) + tiles[..i]
        {
          canvas := canvas + [tiles[i]];
          i := i + 1;
        }
        assert tiles[..i] == tiles;
        initialized := true;
      }
    }

    /** `show`: pastes the tiles if need be and displays the canvas. */
    method Show() returns (shown: seq<Paste<Img>>)
      modifies this
      ensures initialized && tiles == old(tiles) && shown == canvas
      ensures canvas == if old(initialized) then old(canvas) else old(canvas) + old(tiles)
    {
      Initialize();
      shown := canvas;
    }

    /** `save(destination)`: pastes the tiles if need be and writes the canvas to `destination`. */
    method Save(destination: string) returns (written: (string, seq<Paste<Img>>))
      modifies this
      ensures initialized && tiles == old(tiles) && written == (destination, canvas)
      ensures canvas == if old(initialized) then old(canvas) else old(canvas) + old(tiles)
    {
      Initialize();
      written := (destination, canvas);
    }
  }

  /**
   * Pasting the same non-overlapping tiles a second time changes no pixel:
   * the guard in `_initialize` saves work, not a different picture.
   */
  lemma RepasteChangesNothing<Img>(base: seq<Paste<Img>>, tiles: seq<Paste<Img>>, x: int, y: int)
    requires PairwiseDisjoint(tiles)
    ensures ShownAt(base + tiles + tiles, x, y) == ShownAt(base + tiles, x, y)
  {
    if k :| 0 <= k < |tiles| && Contains(tiles[k].rect, x, y) {
      ShownAfterDisjoint(base + tiles, tiles, k, x, y);
      ShownAfterDisjoint(base, tiles, k, x, y);
    } else {
      ShownOutside(base + tiles, tiles, x, y);
    }
  }
}
