# osaic mosaic engine, modelled in Dafny

This project models the engine of `osaic.py`, a photo-mosaic generator.
The engine cuts the target image into a grid of rectangles (the lattice) and
takes the average colour of each one. It finds, for each colour, the source
tile whose average colour is nearest, and it pastes the chosen tiles onto the
output canvas. Work is spread over worker processes by `splitter` and
collected again by `flatten`.

Modules, one per component of the source:

- `MosaicTypes` (`mosaic_types.dfy`): the exceptions the engine raises
  (`ZeroDivisionError`, `ValueError` with its message), `Result`/`Option`,
  colours, rectangles and Python's floor division.
- `WorkSplit` (`work_split.dfy`): `splitter`, `flatten`, and the
  `pool.map` fan-out/fan-in built from them.
- `ColorSampler` (`color_sampler.dfy`): `average_color` over a colour
  histogram.
- `ImageGuards` (`image_guards.dfy`): the argument checks of `resize`,
  `reratio` and `crop`.
- `Lattice` (`lattice.dfy`): `MaximizeFillSizer.make_lattice`.
- `MatchIndex` (`match_index.dfy`): `ImageList` and `_search_matching_images`.
  The k-d tree is modelled as the multiset of entries it holds, and a
  search is specified by the nearest-neighbour property.
- `Assembler` (`assembler.dfy`): `Mosaic`. The canvas is modelled as the
  log of pastes applied to it; `ShownAt` says which tile image a pixel shows.

Edge cases, where the model follows the code as written:

- `reratio` refuses only a negative ratio; a ratio of 0 passes the check.
- A zero-pixel image makes `average_color` raise `ZeroDivisionError`.
- `make_lattice` raises `ZeroDivisionError` for zero columns. A row count of
  0 (or none) falls back to the column count. A negative count yields no
  rectangles at all. A surface narrower than the column count yields
  rectangles of width 0.

## Model

| member | source | states |
|---|---|---|
| WorkSplit.Splitter | osaic.py:108-124 | the generator loop, run to completion, yields exactly `Split(n, xs)`: ZeroDivisionError for `n == 0`, else the buckets cut where `i < cutoff * (len / n)` fails, the test decided on exact rationals |
| WorkSplit.SplitRoundTrip | osaic.py:108-132 | for any non-zero `n`, flattening the buckets gives back the input list, in its original order |
| WorkSplit.SplitNonEmpty | osaic.py:108-124 | with a positive worker count no bucket yielded is empty |
| WorkSplit.SplitCount | osaic.py:108-124 | with `n > 0` workers there are exactly `n` buckets, or `len(xs)` of them when the list is shorter |
| WorkSplit.BucketStep | osaic.py:116-121 | moving to the next element opens a new bucket exactly when the cutoff test fails, in step with the closed-form bucket number `i * n // len + 1` |
| WorkSplit.SplitExample | osaic.py:109-112 | `splitter(3, range(6))` yields `[[0, 1], [2, 3], [4, 5]]` |
| WorkSplit.Flatten | osaic.py:127-132 | an item is in the flattened list exactly when it is in one of the buckets |
| WorkSplit.FlattenAppend | osaic.py:127-132 | flattening a concatenation of bucket lists is the concatenation of the flattened parts |
| WorkSplit.MapSeq | osaic.py:346 | one worker's list comprehension: one answer per item, the `k`-th answer is `f` of the `k`-th item |
| WorkSplit.MapBuckets | osaic.py:349-351 | `pool.map` over the buckets: one answer list per bucket, the `k`-th being the `k`-th bucket mapped item by item |
| WorkSplit.MapBucketsFlatten | osaic.py:127-132 | mapping a function over each bucket and flattening is mapping it over the flattened list |
| WorkSplit.DistributedMapIsSequential | osaic.py:362-374 | splitting the work over `n` workers, mapping a per-item function in each, and flattening gives the same list, in the same order, as mapping over the whole input |
| ColorSampler.AverageOf | osaic.py:135-157 | the average is ZeroDivisionError exactly when `width * height == 0` |
| ColorSampler.AverageColor | osaic.py:135-157 | the accumulation loop returns exactly `AverageOf`: per channel, the occurrence-weighted sum floor-divided by the pixel count |
| ColorSampler.WeightedSumBounds | osaic.py:150-153 | if every histogram value of a channel lies in `[lo, hi]`, the weighted total lies between `count * lo` and `count * hi` |
| ColorSampler.AverageWithinRange | osaic.py:135-157 | when the histogram covers every pixel, each channel of the average lies between the smallest and the largest value that channel takes |
| ColorSampler.UniformAverage | osaic.py:135-157 | a region painted in one colour averages to exactly that colour |
| ImageGuards.AnyNegative | osaic.py:233-234 | true exactly when some value is negative |
| ImageGuards.CheckSize | osaic.py:231-236 | `resize` passes its check exactly when no size component is negative, and otherwise raises ValueError("Size could not contain negative values.") |
| ImageGuards.CheckRatio | osaic.py:244-252 | `reratio` passes its check exactly when the ratio is not negative (0 passes), and otherwise raises ValueError("Ratio could not assume negative values.") |
| ImageGuards.CheckRect | osaic.py:263-272 | `crop` passes its check exactly when no coordinate is negative, and otherwise raises ValueError("Rectangle could not contain negative values.") |
| ImageGuards.NonNegativeRectPasses | osaic.py:263-272 | cropping to a rectangle with non-negative corners is never refused |
| ImageGuards.LatticeRectsPassCrop | osaic.py:355-359 | every rectangle of a lattice passes the check of `crop`, so extracting the average colour of each lattice tile never raises ValueError |
| Lattice.RowCount | osaic.py:442-443 | a missing or zero row count falls back to the column count, any other is kept; a non-zero column count never yields a zero row count |
| Lattice.MakeLattice | osaic.py:428-450 | the builder raises ZeroDivisionError exactly when `rects_width == 0`, and yields rectangles otherwise |
| Lattice.LatticeSize | osaic.py:428-450 | with positive counts the builder yields `rects_width * rects_height` rectangles, the height defaulting to the width |
| Lattice.NegativeCountIsEmpty | osaic.py:444-446 | a negative column or row count yields no rectangles |
| Lattice.LatticeAt | osaic.py:444-450 | rectangle `i * cols + j` is the one of row `i`, column `j`: `(j*tw, i*th, j*tw + tw, i*th + th)`, row-major order |
| Lattice.TileAt | osaic.py:444-450 | the rectangle of row `i`, column `j`, in closed form over `tw = width // cols` and `th = height // rows` |
| Lattice.TileWithinSurface | osaic.py:442-450 | every rectangle lies inside the `width` by `height` surface, with non-negative corners |
| Lattice.TilesDisjoint | osaic.py:442-450 | rectangles of different grid positions share no pixel |
| Lattice.LatticeDisjoint | osaic.py:428-450 | any two rectangles the builder yields share no pixel |
| Lattice.LatticeWithinSurface | osaic.py:428-450 | every rectangle the builder yields has non-negative corners and lies inside the `width` by `height` surface |
| Lattice.TilesCover | osaic.py:442-450 | every pixel left of `cols * tw` and above `rows * th` lies in the rectangle of row `y // th`, column `x // tw` |
| Lattice.RemainderUncovered | osaic.py:442-450 | no rectangle covers a pixel of the right or bottom remainder strip |
| Lattice.LatticeExample | osaic.py:439-440 | `make_lattice(10, 10, 2)` yields `(0,0,5,5), (5,0,10,5), (0,5,5,10), (5,5,10,10)` |
| MatchIndex.NearestExists | osaic.py:324-329 | a non-empty tree always has an entry nearest to the query colour |
| MatchIndex.ImageList.constructor | osaic.py:302-306 | the tree holds exactly the given tiles and nothing is used |
| MatchIndex.ImageList.Reset | osaic.py:308-312 | with used entries, the tree is rebuilt from exactly them and the used list is cleared; otherwise nothing changes |
| MatchIndex.ImageList.Search | osaic.py:317-337 | one search as `Searched` describes it: rebuild from the used entries when the tree is empty, then move a nearest entry from the tree to the end of the used list and return its name; None and no change when nothing is left at all |
| MatchIndex.SearchKeepsPool | osaic.py:317-337 | a search neither loses nor invents entries, returns None exactly when the list holds no entries at all, and otherwise returns the name of the entry it handed out, an entry of the list |
| MatchIndex.NearestInTurnStep | osaic.py:317-337 | handing out a nearest remaining entry extends a sequence in which each entry was nearest among those not handed out before it |
| MatchIndex.InTurnDrawsFromPool | osaic.py:317-337 | entries handed out in turn, each nearest among those left, are drawn from the pool with none handed out twice |
| MatchIndex.FullRoundUsesEveryEntry | osaic.py:317-337 | a round of as many searches as the pool has entries hands out every entry exactly once |
| MatchIndex.RoundsStepWithin | osaic.py:319-329 | while the tree is not yet empty, a search picking a nearest remaining entry extends the first round |
| MatchIndex.RoundsStepRestart | osaic.py:319-329 | once the first round has emptied the tree, the next search, nearest in the whole rebuilt pool, begins the second round |
| MatchIndex.RoundsStep | osaic.py:319-337 | from a fresh list, a search picks the nearest entry not yet handed out in the current round, or, with the round complete, the nearest in the whole pool, and the picks stay in greedy rounds |
| MatchIndex.FirstRound | osaic.py:377-381 | the first `min(len(colors), n)` searches from a fresh list hand out distinct entries of the pool, each nearest among those not yet handed out |
| MatchIndex.CountStep | osaic.py:319-335 | against `n` entries, one more search takes one more entry, or, with none left, starts over with one taken |
| MatchIndex.FreshStep | osaic.py:377-381 | on a list freshly built over a non-empty pool, one more search extends the greedy rounds by the entry it handed out, and the used list stays the round in progress |
| MatchIndex.AccountedStep | osaic.py:377-381 | across a sequence of searches the list keeps exactly its entries; every result is None when it has no entries, and otherwise the name of the entry handed out at that turn, an entry of the pool |
| MatchIndex.MatchStep | osaic.py:377-381 | one search of the sequence keeps `MatchedSoFar`: pool unchanged, all results None exactly for an empty pool, each other result naming its pick, the used count `(i - 1) % n + 1` after `i` searches from a fresh list of `n`, and, from a fresh list, the picks forming greedy rounds |
| MatchIndex.SearchMatching | osaic.py:377-381 | one search per colour, in order; the results, the entries handed out and the list's new state satisfy `MatchedSoFar`: from a fresh list of `n` entries, result `k` names pick `k`, and the picks come in rounds of `n` that each hand out the whole pool, nearest remaining entry first |
| Assembler.ShownAt | osaic.py:274-276 | a pixel shows no tile exactly when no paste covers it, and otherwise shows the image of a paste that covers it |
| Assembler.ShownAfterDisjoint | osaic.py:274-276 | after a run of non-overlapping pastes, a pixel inside the `k`-th one shows that paste's image, whatever the canvas showed before |
| Assembler.ShownOutside | osaic.py:274-276 | a pixel that no paste of a run covers shows what it showed before the run |
| Assembler.PastesOnto | osaic.py:669-671 | the `k`-th paste puts the `k`-th image on the `k`-th rectangle |
| Assembler.LatticeMosaicShowsMatches | osaic.py:396-400 | pasting one matched image per lattice rectangle makes every pixel of the `k`-th rectangle show the `k`-th image |
| Assembler.RepasteChangesNothing | osaic.py:396-400 | pasting the same non-overlapping tiles a second time changes no pixel |
| Assembler.Mosaic.constructor | osaic.py:391-394 | a new mosaic holds the canvas and the tiles and is not initialized |
| Assembler.Mosaic.Initialize | osaic.py:396-400 | the first call pastes every tile, in order, onto the canvas and marks the mosaic initialized; later calls change nothing |
| Assembler.Mosaic.Show | osaic.py:402-404 | initializes if need be, then shows the canvas with every tile pasted once |
| Assembler.Mosaic.Save | osaic.py:406-408 | initializes if need be, then writes the canvas with every tile pasted once to the destination |

## Left out

- Decoding, resizing, cropping and pasting pixels (PIL), downloading images, and
  `serialize`/`deserialize`: these are I/O and a foreign library. Only the
  argument checks in front of them are modelled, and a paste is a log entry.
- The multiprocessing pool: `pool.map` is modelled by its sequential result
  (`MapBuckets`). Scheduling, pickling and worker failure are not modelled.
- `search_matching_images` sends each bucket to a worker process with its own
  copy of the `ImageList`. The model covers `_search_matching_images`, the
  work of one worker on one list. The copies do not share their used entries.
- `MatchIndex.ImageList.Search`: picks some nearest entry. Which of several
  equally near entries the k-d tree returns is left open, and the k-d tree's
  own behaviour on an empty tree is not part of this model. The model takes
  the function's fall-through: None.
- `MatchIndex.ImageList.Search`: removing the picked entry is modelled as the
  intended in-place deletion from the k-d tree (the library's
  `tree = tree.remove(...)` usage). osaic.py:333 discards the root that
  `remove` returns. When the picked entry is the root of a tree of two or
  more nodes, the list can keep an emptied root. The next search then
  resets from the used entries, dropping the entries still available and
  bringing back those already handed out. The no-reuse results
  (`GreedyRounds`, `FirstRound`, `FullRoundUsesEveryEntry`) hold for the
  intended deletion only.
- `MatchIndex.SearchMatching`: the greedy rounds are stated only for a list
  that starts with nothing used. From any other state the contract states
  pool conservation, the None/Some split, and that each result names the
  entry of the pool handed out at its turn.
- The `whenskip` and `skip_list` parameters of `search` and
  `_search_matching_images` are accepted and never read by the source, so the
  model has none.
- `WorkSplit.Splitter`: the cutoff test `i < cutoff * (len / n)` is decided
  on exact rationals. The source computes it in floats, and the rounded
  product can land just past an integer on ordinary inputs, moving a bucket
  boundary by one element. For `splitter(28, range(36))`, `21 * (36 / 28)`
  is `27.000000000000004` in floats, so the source yields
  `..., [26, 27], [28], ...` where the model yields `..., [26], [27, 28], ...`.
  Flattening still gives back the input list either way. `SplitCount` is
  proved for the exact test; bucket sizes can differ from the source's by
  one element at a boundary.
- A negative worker count makes `splitter` yield an empty first bucket. The
  model computes that behaviour but proves no lemma about it.
- The rest of `reratio` (the centre-crop computed in floats) and the
  `ratio` property are float arithmetic and are not modelled.
- `MaximizeFillSizer.get_lattice` derives the tile count with `math.sqrt` and
  reads the undefined names `tiles` and `original_width`. `BaseColorReader`,
  `skymosaic`, `mosaicify`, JSON manifests, the command line and timing
  counters are outside the engine. None of these is modelled.
- Colour channels are unbounded integers. The source's 8-bit range is a
  property of the images, not of the code.
