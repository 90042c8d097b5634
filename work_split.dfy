/**
 * The work distributor: `splitter` cuts a list into contiguous buckets, one
 * per worker, and `flatten` glues the workers' answers back together.
 *
 * `splitter` tests `i < cutoff * (len / n)`, where `len / n` is a
 * true-division float and the product is rounded again. The model decides
 * the same test on exact rationals: `i * n < cutoff * len` when `n` is
 * positive and `i * n > cutoff * len` when `n` is negative; `n == 0` raises
 * ZeroDivisionError. Where the float product rounds just past an integer
 * the two disagree by one element at a bucket boundary: for
 * `splitter(28, range(36))`, `21 * (36 / 28)` evaluates to
 * `27.000000000000004`, so element 27 closes the bucket `[26, 27]` in the
 * source while the model opens a new one `[27, 28]`.
 */
module WorkSplit {
  import opened MosaicTypes

  /** `i < cutoff * (len / n)` over exact rationals, without the float rounding. */
  predicate Below(i: int, cutoff: int, len: int, n: int)
    requires n != 0
  {
    if n > 0 then i * n < cutoff * len else i * n > cutoff * len
  }

  /** `itertools.chain.from_iterable`: the buckets concatenated in order. */
  function Flatten<T>(buckets: seq<seq<T>>): (r: seq<T>)
    ensures forall i, x :: 0 <= i < |buckets| && x in buckets[i] ==> x in r
    ensures forall x :: x in r ==> exists i :: 0 <= i < |buckets| && x in buckets[i]
  {
    if buckets == [] then [] else buckets[0] + Flatten(buckets[1..])
  }

  /**
   * The buckets the generator still yields once it has consumed `xs[..i]`,
   * holds `acc` and compares against `cutoff`.
   */
  function SplitFrom<T>(xs: seq<T>, n: int, i: nat, cutoff: int, acc: seq<T>): seq<seq<T>>
    requires n != 0 && i <= |xs|
    decreases |xs| - i
  {
    if i == |xs| then
      (if acc != [] then [acc] else [])
    else if Below(i, cutoff, |xs|, n) then
      SplitFrom(xs, n, i + 1, cutoff, acc + [xs[i]])
    else
      [acc] + SplitFrom(xs, n, i + 1, cutoff + 1, [xs[i]])
  }

  /** Everything `splitter(n, xs)` yields, or the exception it raises. */
  function Split<T>(n: int, xs: seq<T>): Result<seq<seq<T>>>
  {
    if n == 0 then Err(ZeroDivisionError) else Ok(SplitFrom(xs, n, 0, 1, []))
  }

  /** The generator, run to completion. */
  method Splitter<T>(n: int, xs: seq<T>) returns (r: Result<seq<seq<T>>>)
    ensures r == Split(n, xs)
  {
    if n == 0 {
      return Err(ZeroDivisionError);
    }
    var buckets: seq<seq<T>> := [];
    var cutoff := 1;
    var acc: seq<T> := [];
    var i := 0;
    while i < |xs|
      invariant 0 <= i <= |xs|
      invariant buckets + SplitFrom(xs, n, i, cutoff, acc) == SplitFrom(xs, n, 0, 1, [])
    {
      if Below(i, cutoff, |xs|, n) {
        acc := acc + [xs[i]];
      } else {
        buckets := buckets + [acc];
        cutoff := cutoff + 1;
        acc := [xs[i]];
      }
      i := i + 1;
    }
    assert SplitFrom(xs, n, i, cutoff, acc) == if acc != [] then [acc] else [];
    if acc != [] {
      buckets := buckets + [acc];
    } else {
      assert buckets + [] == buckets;
    }
    return Ok(buckets);
  }

  lemma {:induction false} FlattenAppend<T>(a: seq<seq<T>>, b: seq<seq<T>>)
    ensures Flatten(a + b) == Flatten(a) + Flatten(b)
    decreases |a|
  {
    if a == [] {
      assert a + b == b;
    } else {
      assert (a + b)[1..] == a[1..] + b;
      FlattenAppend(a[1..], b);
    }
  }

  lemma {:induction false} SplitFromFlattens<T>(xs: seq<T>, n: int, i: nat, cutoff: int, acc: seq<T>)
    requires n != 0 && i <= |xs|
    ensures Flatten(SplitFrom(xs, n, i, cutoff, acc)) == acc + xs[i..]
    decreases |xs| - i
  {
    if i == |xs| {
      if acc != [] {
        assert Flatten([acc]) == acc + Flatten([acc][1..]);
      }
    } else if Below(i, cutoff, |xs|, n) {
      SplitFromFlattens(xs, n, i + 1, cutoff, acc + [xs[i]]);
      assert xs[i..] == [xs[i]] + xs[i + 1..];
    } else {
      var rest := SplitFrom(xs, n, i + 1, cutoff + 1, [xs[i]]);
      SplitFromFlattens(xs, n, i + 1, cutoff + 1, [xs[i]]);
      assert ([acc] + rest)[1..] == rest;
      assert xs[i..] == [xs[i]] + xs[i + 1..];
    }
  }

  /** Flattening the buckets gives back the list, in its original order. */
  lemma SplitRoundTrip<T>(n: int, xs: seq<T>)
    requires n != 0
    ensures Split(n, xs).Ok? && Flatten(Split(n, xs).value) == xs
  {
    SplitFromFlattens(xs, n, 0, 1, []);
    assert xs[0..] == xs;
  }

  lemma {:induction false} SplitFromNonEmpty<T>(xs: seq<T>, n: int, i: nat, cutoff: int, acc: seq<T>)
    requires n > 0 && i <= |xs|
    requires acc == [] ==> i == 0 && cutoff == 1
    ensures forall b | b in SplitFrom(xs, n, i, cutoff, acc) :: b != []
    decreases |xs| - i
  {
    if i == |xs| {
    } else if Below(i, cutoff, |xs|, n) {
      SplitFromNonEmpty(xs, n, i + 1, cutoff, acc + [xs[i]]);
    } else {
      assert acc != [];
      SplitFromNonEmpty(xs, n, i + 1, cutoff + 1, [xs[i]]);
    }
  }

  /** With a positive worker count no bucket is empty. */
  lemma SplitNonEmpty<T>(n: int, xs: seq<T>)
    requires n > 0
    ensures Split(n, xs).Ok?
    ensures forall b | b in Split(n, xs).value :: b != []
  {
    SplitFromNonEmpty(xs, n, 0, 1, []);
  }

  /** The bucket, counted from 1, that element `i` of a list of `len` lands in. */
  function BucketOf(i: nat, len: nat, n: nat): nat
    requires len > 0
  {
    if n <= len then i * n / len + 1 else i + 1
  }

  /** Moving from element `i - 1` to element `i` opens a new bucket exactly when `Below` fails. */
  lemma BucketStep(i: nat, len: nat, n: nat)
    requires n > 0 && 1 <= i < len
    ensures Below(i, BucketOf(i - 1, len, n), len, n) ==> BucketOf(i, len, n) == BucketOf(i - 1, len, n)
    ensures !Below(i, BucketOf(i - 1, len, n), len, n) ==> BucketOf(i, len, n) == BucketOf(i - 1, len, n) + 1
  {
    if n <= len {
      var x := (i - 1) * n;
      var a := x / len;
      var y := i * n;
      assert y == x + n;
      assert len * a <= x < len * a + len;
      assert len * (a + 1) == len * a + len;
      assert len * (a + 2) == len * a + len + len;
      if y < (a + 1) * len {
        DivUnique(y, len, a);
      } else {
        DivUnique(y, len, a + 1);
      }
    } else {
      assert i * n - i * len == i * (n - len) > 0;
    }
  }

  lemma {:induction false} SplitFromCount<T>(xs: seq<T>, n: nat, i: nat, cutoff: int, acc: seq<T>)
    requires n > 0 && 1 <= i <= |xs|
    requires acc != [] && cutoff == BucketOf(i - 1, |xs|, n)
    ensures |SplitFrom(xs, n, i, cutoff, acc)| == BucketOf(|xs| - 1, |xs|, n) - cutoff + 1
    decreases |xs| - i
  {
    if i < |xs| {
      BucketStep(i, |xs|, n);
      if Below(i, cutoff, |xs|, n) {
        SplitFromCount(xs, n, i + 1, cutoff, acc + [xs[i]]);
      } else {
        SplitFromCount(xs, n, i + 1, cutoff + 1, [xs[i]]);
      }
    }
  }

  /** `n` workers get `n` buckets, or one element each when the list is shorter. */
  lemma SplitCount<T>(n: int, xs: seq<T>)
    requires n > 0
    ensures Split(n, xs).Ok?
    ensures |Split(n, xs).value| == if |xs| < n then |xs| else n
  {
    var len := |xs|;
    if len > 0 {
      assert Below(0, 1, len, n);
      assert BucketOf(0, len, n) == 1;
      assert [] + [xs[0]] == [xs[0]];
      assert SplitFrom(xs, n, 0, 1, []) == SplitFrom(xs, n, 1, 1, [xs[0]]);
      SplitFromCount(xs, n, 1, 1, [xs[0]]);
      if n <= len {
        assert (len - 1) * n == len * n - n;
        assert len * (n - 1) == len * n - len;
        DivUnique((len - 1) * n, len, n - 1);
        assert BucketOf(len - 1, len, n) == n;
      }
    }
  }

  /** The example in the generator's documentation. */
  lemma SplitExample()
    ensures Split(3, [0, 1, 2, 3, 4, 5]) == Ok([[0, 1], [2, 3], [4, 5]])
  {
    var xs := [0, 1, 2, 3, 4, 5];
    assert [4] + [xs[5]] == [4, 5];
    assert [2] + [xs[3]] == [2, 3];
    assert [0] + [xs[1]] == [0, 1];
    assert [] + [xs[0]] == [0];
    assert SplitFrom(xs, 3, 6, 3, [4, 5]) == [[4, 5]];
    assert SplitFrom(xs, 3, 5, 3, [4]) == [[4, 5]];
    assert SplitFrom(xs, 3, 4, 2, [2, 3]) == [[2, 3], [4, 5]];
    assert SplitFrom(xs, 3, 3, 2, [2]) == [[2, 3], [4, 5]];
    assert SplitFrom(xs, 3, 2, 1, [0, 1]) == [[0, 1], [2, 3], [4, 5]];
    assert SplitFrom(xs, 3, 1, 1, [0]) == [[0, 1], [2, 3], [4, 5]];
    assert SplitFrom(xs, 3, 0, 1, []) == [[0, 1], [2, 3], [4, 5]];
  }

  /** `[f(x) for x in xs]`: what one worker computes on its bucket. */
  function MapSeq<T, U>(f: T -> U, xs: seq<T>): (r: seq<U>)
    ensures |r| == |xs|
    ensures forall k :: 0 <= k < |xs| ==> r[k] == f(xs[k])
  {
    if xs == [] then [] else [f(xs[0])] + MapSeq(f, xs[1..])
  }

  /** `pool.map` over the buckets: every worker's answer, in bucket order. */
  function MapBuckets<T, U>(f: T -> U, buckets: seq<seq<T>>): (r: seq<seq<U>>)
    ensures |r| == |buckets|
    ensures forall k :: 0 <= k < |buckets| ==> r[k] == MapSeq(f, buckets[k])
  {
    if buckets == [] then [] else [MapSeq(f, buckets[0])] + MapBuckets(f, buckets[1..])
  }

  lemma {:induction false} MapSeqAppend<T, U>(f: T -> U, a: seq<T>, b: seq<T>)
    ensures MapSeq(f, a + b) == MapSeq(f, a) + MapSeq(f, b)
    decreases |a|
  {
    if a == [] {
      assert a + b == b;
    } else {
      assert (a + b)[1..] == a[1..] + b;
      MapSeqAppend(f, a[1..], b);
    }
  }

  lemma {:induction false} MapBucketsFlatten<T, U>(f: T -> U, buckets: seq<seq<T>>)
    ensures Flatten(MapBuckets(f, buckets)) == MapSeq(f, Flatten(buckets))
    decreases |buckets|
  {
    if buckets != [] {
      MapBucketsFlatten(f, buckets[1..]);
      MapSeqAppend(f, buckets[0], Flatten(buckets[1..]));
    }
  }

  /**
   * Splitting, mapping each bucket and flattening the answers gives what the
   * sequential map gives: the fan-out keeps the input order.
   */
  lemma DistributedMapIsSequential<T, U>(f: T -> U, n: int, xs: seq<T>)
    requires n != 0
    ensures Split(n, xs).Ok?
    ensures Flatten(MapBuckets(f, Split(n, xs).value)) == MapSeq(f, xs)
  {
    SplitRoundTrip(n, xs);
    MapBucketsFlatten(f, Split(n, xs).value);
  }
}
