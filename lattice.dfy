/**
 * The lattice builder: `make_lattice(width, height, rects_width,
 * rects_height)` emits, row by row and left to right, rectangles of
 * `width // rects_width` by `height // rects_height` pixels. A missing or
 * zero `rects_height` falls back to `rects_width`. Pixels to the right of
 * the last column and below the last row are covered by no rectangle.
 */
module Lattice {
  import opened MosaicTypes

  /** `if not rects_height: rects_height = rects_width`. */
  function RowCount(rectsWidth: int, rectsHeight: Option<int>): (r: int)
    ensures rectsHeight == None || rectsHeight == Some(0) ==> r == rectsWidth
    ensures rectsHeight.Some? && rectsHeight.value != 0 ==> r == rectsHeight.value
    ensures rectsWidth != 0 ==> r != 0
  {
    match rectsHeight
    case None => rectsWidth
    case Some(h) => if h == 0 then rectsWidth else h
  }

  /** The rectangle in row `i`, column `j` of a lattice of `tileWidth` by `tileHeight` tiles. */
  function Cell(i: int, j: int, tileWidth: int, tileHeight: int): Rect
  {
    Rect(j * tileWidth, i * tileHeight, j * tileWidth + tileWidth, i * tileHeight + tileHeight)
  }

  /** The inner loop: columns `j` up to `cols` of row `i`. */
  function Row(i: int, j: int, cols: int, tileWidth: int, tileHeight: int): seq<Rect>
    decreases cols - j
  {
    if j >= cols then []
    else [Cell(i, j, tileWidth, tileHeight)] + Row(i, j + 1, cols, tileWidth, tileHeight)
  }

  /** The outer loop: rows `i` up to `rows`. */
  function Rows(i: int, rows: int, cols: int, tileWidth: int, tileHeight: int): seq<Rect>
    decreases rows - i
  {
    if i >= rows then []
    else Row(i, 0, cols, tileWidth, tileHeight) + Rows(i + 1, rows, cols, tileWidth, tileHeight)
  }

  /**
   * Everything `make_lattice` yields. Only a zero `rects_width` raises; a
   * negative count leaves a loop empty, so nothing is yielded.
   */
  function MakeLattice(width: nat, height: nat, rectsWidth: int, rectsHeight: Option<int>): (r: Result<seq<Rect>>)
    ensures r.Err? <==> rectsWidth == 0
    ensures r.Err? ==> r.error == ZeroDivisionError
  {
    if rectsWidth == 0 then Err(ZeroDivisionError)
    else
      var rows := RowCount(rectsWidth, rectsHeight);
      Ok(Rows(0, rows, rectsWidth, FloorDiv(width, rectsWidth), FloorDiv(height, rows)))
  }

  /** The pixel `(x, y)` lies inside `rect` (right and bottom edges excluded). */
  predicate Contains(rect: Rect, x: int, y: int)
  {
    rect.x1 <= x < rect.x2 && rect.y1 <= y < rect.y2
  }

  /** Two rectangles share no pixel. */
  predicate Disjoint(a: Rect, b: Rect)
  {
    a.x2 <= b.x1 || b.x2 <= a.x1 || a.y2 <= b.y1 || b.y2 <= a.y1
  }

  lemma {:induction false} RowAt(i: int, j0: int, cols: int, tw: int, th: int, j: int)
    requires 0 <= j0 <= j < cols
    ensures |Row(i, j0, cols, tw, th)| == cols - j0
    ensures Row(i, j0, cols, tw, th)[j - j0] == Cell(i, j, tw, th)
    decreases cols - j0
  {
    if j0 < j {
      RowAt(i, j0 + 1, cols, tw, th, j);
    } else if j0 + 1 < cols {
      RowAt(i, j0 + 1, cols, tw, th, j0 + 1);
    }
  }

  lemma {:induction false} RowsLength(i0: int, rows: int, cols: int, tw: int, th: int)
    requires 0 <= i0 <= rows && cols > 0
    ensures |Rows(i0, rows, cols, tw, th)| == (rows - i0) * cols
    decreases rows - i0
  {
    if i0 < rows {
      RowAt(i0, 0, cols, tw, th, 0);
      RowsLength(i0 + 1, rows, cols, tw, th);
      MulDistributes(rows - i0 - 1, 1, cols);
    }
  }

  lemma {:induction false} RowsAt(i0: int, rows: int, cols: int, tw: int, th: int, i: int, j: int)
    requires 0 <= i0 <= i < rows && 0 <= j < cols
    ensures (i - i0) * cols + j < |Rows(i0, rows, cols, tw, th)|
    ensures Rows(i0, rows, cols, tw, th)[(i - i0) * cols + j] == Cell(i, j, tw, th)
    decreases rows - i0
  {
    RowsLength(i0, rows, cols, tw, th);
    RowAt(i0, 0, cols, tw, th, j);
    MulMonotone(cols, i - i0 + 1, rows - i0);
    MulDistributes(i - i0, 1, cols);
    if i0 < i {
      RowsAt(i0 + 1, rows, cols, tw, th, i, j);
      MulDistributes(i - i0 - 1, 1, cols);
    }
  }

  /** A positive count of columns and rows gives `cols * rows` rectangles. */
  lemma LatticeSize(width: nat, height: nat, cols: int, rectsHeight: Option<int>)
    requires cols > 0 && RowCount(cols, rectsHeight) > 0
    ensures MakeLattice(width, height, cols, rectsHeight).Ok?
    ensures |MakeLattice(width, height, cols, rectsHeight).value| == cols * RowCount(cols, rectsHeight)
  {
    var rows := RowCount(cols, rectsHeight);
    RowsLength(0, rows, cols, FloorDiv(width, cols), FloorDiv(height, rows));
  }

  /** A negative count of columns or rows yields no rectangle at all. */
  lemma {:induction false} NegativeCountIsEmpty(width: nat, height: nat, cols: int, rectsHeight: Option<int>)
    requires cols < 0 || (cols > 0 && RowCount(cols, rectsHeight) < 0)
    ensures MakeLattice(width, height, cols, rectsHeight) == Ok([])
  {
    var rows := RowCount(cols, rectsHeight);
    var tw, th := FloorDiv(width, cols), FloorDiv(height, rows);
    if rows > 0 {
      assert Row(0, 0, cols, tw, th) == [];
      EmptyColumnsRows(1, rows, cols, tw, th);
      assert Rows(0, rows, cols, tw, th) == Row(0, 0, cols, tw, th) + Rows(1, rows, cols, tw, th);
    }
  }

  lemma {:induction false} EmptyColumnsRows(i0: int, rows: int, cols: int, tw: int, th: int)
    requires cols < 0
    ensures Rows(i0, rows, cols, tw, th) == []
    decreases rows - i0
  {
    if i0 < rows {
      assert Row(i0, 0, cols, tw, th) == [];
      EmptyColumnsRows(i0 + 1, rows, cols, tw, th);
    }
  }

  /** The rectangle at index `i * cols + j` is the tile in row `i`, column `j`. */
  lemma LatticeAt(width: nat, height: nat, cols: int, rectsHeight: Option<int>, i: int, j: int)
    requires cols > 0 && 0 <= i < RowCount(cols, rectsHeight) && 0 <= j < cols
    ensures MakeLattice(width, height, cols, rectsHeight).Ok?
    ensures i * cols + j < |MakeLattice(width, height, cols, rectsHeight).value|
    ensures MakeLattice(width, height, cols, rectsHeight).value[i * cols + j]
         == Cell(i, j, width / cols, height / RowCount(cols, rectsHeight))
  {
    var rows := RowCount(cols, rectsHeight);
    RowsAt(0, rows, cols, width / cols, height / rows, i, j);
  }

  /** The tile in row `i`, column `j` of the lattice, read off the yielded sequence. */
  function TileAt(width: nat, height: nat, cols: int, rectsHeight: Option<int>, i: int, j: int): (rect: Rect)
    requires cols > 0 && 0 <= i < RowCount(cols, rectsHeight) && 0 <= j < cols
    ensures rect == Cell(i, j, width / cols, height / RowCount(cols, rectsHeight))
  {
    LatticeAt(width, height, cols, rectsHeight, i, j);
    MakeLattice(width, height, cols, rectsHeight).value[i * cols + j]
  }

  lemma CellWithin(i: int, j: int, rows: int, cols: int, tw: int, th: int)
    requires 0 <= i < rows && 0 <= j < cols && tw >= 0 && th >= 0
    ensures var rect := Cell(i, j, tw, th);
            && 0 <= rect.x1 && rect.x2 <= cols * tw
            && 0 <= rect.y1 && rect.y2 <= rows * th
  {
    MulMonotone(tw, j + 1, cols);
    MulMonotone(th, i + 1, rows);
    MulMonotone(tw, 0, j);
    MulMonotone(th, 0, i);
    MulDistributes(j, 1, tw);
    MulDistributes(i, 1, th);
  }

  lemma CellsDisjoint(i1: int, j1: int, i2: int, j2: int, tw: int, th: int)
    requires tw >= 0 && th >= 0 && (i1 != i2 || j1 != j2)
    ensures Disjoint(Cell(i1, j1, tw, th), Cell(i2, j2, tw, th))
  {
    if j1 < j2 {
      MulMonotone(tw, j1 + 1, j2);
      MulDistributes(j1, 1, tw);
    } else if j2 < j1 {
      MulMonotone(tw, j2 + 1, j1);
      MulDistributes(j2, 1, tw);
    } else if i1 < i2 {
      MulMonotone(th, i1 + 1, i2);
      MulDistributes(i1, 1, th);
    } else {
      MulMonotone(th, i2 + 1, i1);
      MulDistributes(i2, 1, th);
    }
  }

  /**
   * Every tile is `width // cols` by `height // rows` and lies inside the
   * part of the surface that excludes the right and bottom remainders.
   */
  lemma TileWithinSurface(width: nat, height: nat, cols: int, rectsHeight: Option<int>, i: int, j: int)
    requires cols > 0 && 0 <= i < RowCount(cols, rectsHeight) && 0 <= j < cols
    ensures var rows := RowCount(cols, rectsHeight);
            var rect := TileAt(width, height, cols, rectsHeight, i, j);
            && rect.x2 - rect.x1 == width / cols >= 0 && rect.y2 - rect.y1 == height / rows >= 0
            && 0 <= rect.x1 && rect.x2 <= width - width % cols
            && 0 <= rect.y1 && rect.y2 <= height - height % rows
  {
    var rows := RowCount(cols, rectsHeight);
    CellWithin(i, j, rows, cols, width / cols, height / rows);
    assert width == cols * (width / cols) + width % cols;
    assert height == rows * (height / rows) + height % rows;
  }

  lemma CellCovers(x: int, y: int, rows: int, cols: int, tw: int, th: int)
    requires cols > 0 && rows > 0 && 0 <= x < cols * tw && 0 <= y < rows * th
    ensures tw > 0 && th > 0
    ensures 0 <= y / th < rows && 0 <= x / tw < cols
    ensures Contains(Cell(y / th, x / tw, tw, th), x, y)
  {
    if tw <= 0 {
      MulMonotone(cols, tw, 0);
    }
    if th <= 0 {
      MulMonotone(rows, th, 0);
    }
    var i, j := y / th, x / tw;
    assert th * i <= y < th * i + th;
    assert tw * j <= x < tw * j + tw;
    if j >= cols {
      MulMonotone(tw, cols, j);
    }
    if i >= rows {
      MulMonotone(th, rows, i);
    }
  }

  /** Tiles at two different grid positions share no pixel. */
  lemma TilesDisjoint(width: nat, height: nat, cols: int, rectsHeight: Option<int>,
                      i1: int, j1: int, i2: int, j2: int)
    requires cols > 0 && 0 <= i1 < RowCount(cols, rectsHeight) && 0 <= j1 < cols
    requires 0 <= i2 < RowCount(cols, rectsHeight) && 0 <= j2 < cols
    requires i1 != i2 || j1 != j2
    ensures Disjoint(TileAt(width, height, cols, rectsHeight, i1, j1),
                     TileAt(width, height, cols, rectsHeight, i2, j2))
  {
    var rows := RowCount(cols, rectsHeight);
    CellsDisjoint(i1, j1, i2, j2, width / cols, height / rows);
  }

  /**
   * Every pixel left of `cols * (width // cols)` and above
   * `rows * (height // rows)` lies in the tile of row `y // th`, column `x // tw`.
   */
  lemma TilesCover(width: nat, height: nat, cols: int, rectsHeight: Option<int>, x: int, y: int)
    requires cols > 0 && RowCount(cols, rectsHeight) > 0
    requires 0 <= x < cols * (width / cols)
    requires 0 <= y < RowCount(cols, rectsHeight) * (height / RowCount(cols, rectsHeight))
    ensures var rows := RowCount(cols, rectsHeight);
            var tw, th := width / cols, height / rows;
            && tw > 0 && th > 0
            && 0 <= y / th < rows && 0 <= x / tw < cols
            && Contains(TileAt(width, height, cols, rectsHeight, y / th, x / tw), x, y)
  {
    var rows := RowCount(cols, rectsHeight);
    CellCovers(x, y, rows, cols, width / cols, height / rows);
  }

  /** Every index of the lattice is some row-major grid position. */
  lemma IndexDecomposes(k: int, cols: int, rows: int)
    requires cols > 0 && 0 <= k < rows * cols
    ensures 0 <= k / cols < rows && 0 <= k % cols < cols
    ensures k == (k / cols) * cols + k % cols
  {
    if k / cols >= rows {
      MulMonotone(cols, rows, k / cols);
    }
  }

  /** Any two rectangles the builder yields share no pixel. */
  lemma LatticeDisjoint(width: nat, height: nat, cols: int, rectsHeight: Option<int>, a: int, b: int)
    requires cols > 0 && RowCount(cols, rectsHeight) > 0
    requires 0 <= a < b < |MakeLattice(width, height, cols, rectsHeight).value|
    ensures var r := MakeLattice(width, height, cols, rectsHeight).value;
            Disjoint(r[a], r[b])
  {
    var rows := RowCount(cols, rectsHeight);
    LatticeSize(width, height, cols, rectsHeight);
    IndexDecomposes(a, cols, rows);
    IndexDecomposes(b, cols, rows);
    var ia, ja, ib, jb := a / cols, a % cols, b / cols, b % cols;
    LatticeAt(width, height, cols, rectsHeight, ia, ja);
    LatticeAt(width, height, cols, rectsHeight, ib, jb);
    TilesDisjoint(width, height, cols, rectsHeight, ia, ja, ib, jb);
  }

  /** Every rectangle the builder yields has non-negative corners inside the surface. */
  lemma LatticeWithinSurface(width: nat, height: nat, cols: int, rectsHeight: Option<int>, k: int)
    requires cols > 0 && RowCount(cols, rectsHeight) > 0
    requires 0 <= k < |MakeLattice(width, height, cols, rectsHeight).value|
    ensures var rect := MakeLattice(width, height, cols, rectsHeight).value[k];
            0 <= rect.x1 <= rect.x2 <= width && 0 <= rect.y1 <= rect.y2 <= height
  {
    var rows := RowCount(cols, rectsHeight);
    var rects := MakeLattice(width, height, cols, rectsHeight).value;
    var i, j := k / cols, k % cols;
    assert 0 <= i < rows && 0 <= j < cols && k == i * cols + j by {
      LatticeSize(width, height, cols, rectsHeight);
      IndexDecomposes(k, cols, rows);
    }
    var rect := TileAt(width, height, cols, rectsHeight, i, j);
    assert rects[k] == rect;
    TileWithinSurface(width, height, cols, rectsHeight, i, j);
  }

  /** No tile reaches into the right or bottom remainder strip. */
  lemma RemainderUncovered(width: nat, height: nat, cols: int, rectsHeight: Option<int>, x: int, y: int)
    requires cols > 0 && RowCount(cols, rectsHeight) > 0
    requires x >= width - width % cols || y >= height - height % RowCount(cols, rectsHeight)
    ensures forall rect | rect in MakeLattice(width, height, cols, rectsHeight).value :: !Contains(rect, x, y)
  {
    var rows := RowCount(cols, rectsHeight);
    var r := MakeLattice(width, height, cols, rectsHeight).value;
    LatticeSize(width, height, cols, rectsHeight);
    forall rect | rect in r ensures !Contains(rect, x, y) {
      var k :| 0 <= k < |r| && r[k] == rect;
      IndexDecomposes(k, cols, rows);
      TileWithinSurface(width, height, cols, rectsHeight, k / cols, k % cols);
    }
  }

  /** The example in the builder's documentation. */
  lemma LatticeExample()
    ensures MakeLattice(10, 10, 2, None)
         == Ok([Rect(0, 0, 5, 5), Rect(5, 0, 10, 5), Rect(0, 5, 5, 10), Rect(5, 5, 10, 10)])
  {
    assert FloorDiv(10, 2) == 5;
    assert RowCount(2, None) == 2;
    assert Row(1, 2, 2, 5, 5) == [];
    assert Row(1, 1, 2, 5, 5) == [Rect(5, 5, 10, 10)];
    assert Row(0, 2, 2, 5, 5) == [];
    assert Row(0, 1, 2, 5, 5) == [Rect(5, 0, 10, 5)];
    assert Row(1, 0, 2, 5, 5) == [Rect(0, 5, 5, 10), Rect(5, 5, 10, 10)];
    assert Row(0, 0, 2, 5, 5) == [Rect(0, 0, 5, 5), Rect(5, 0, 10, 5)];
    assert Rows(2, 2, 2, 5, 5) == [];
    assert Rows(1, 2, 2, 5, 5) == [Rect(0, 5, 5, 10), Rect(5, 5, 10, 10)];
    assert Rows(0, 2, 2, 5, 5)
        == [Rect(0, 0, 5, 5), Rect(5, 0, 10, 5)] + [Rect(0, 5, 5, 10), Rect(5, 5, 10, 10)];
    assert [Rect(0, 0, 5, 5), Rect(5, 0, 10, 5)] + [Rect(0, 5, 5, 10), Rect(5, 5, 10, 10)]
        == [Rect(0, 0, 5, 5), Rect(5, 0, 10, 5), Rect(0, 5, 5, 10), Rect(5, 5, 10, 10)];
    assert MakeLattice(10, 10, 2, None) == Ok(Rows(0, 2, 2, 5, 5));
  }
}
