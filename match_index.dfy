/**
 * The colour match index. `ImageList` keeps the source tiles that are still
 * available in a k-d tree keyed by average colour, and the ones it has handed
 * out in `_used`. A search takes the available entry nearest to the query
 * colour, moves it to `_used` and returns its file name; when the tree has
 * run dry the used entries are put back first.
 *
 * The tree is modelled by the multiset of entries it holds: the search is
 * specified by its nearest-neighbour property, and the tree's own choice
 * among equally near entries is left open.
 */
module MatchIndex {
  import opened MosaicTypes

  /** A source tile as the tree sees it: its name and its average colour. */
  datatype Entry = Entry(filename: string, color: Color)

  /** The squared Euclidean distance in RGB space, the k-d tree's metric. */
  function SqDist(a: Color, b: Color): nat
  {
    var dr, dg, db := a.red - b.red, a.green - b.green, a.blue - b.blue;
    dr * dr + dg * dg + db * db
  }

  /** `e` is in `pool` and no entry of `pool` is nearer to `query`. */
  predicate IsNearest(e: Entry, pool: multiset<Entry>, query: Color)
  {
    e in pool && forall o | o in pool :: SqDist(e.color, query) <= SqDist(o.color, query)
  }

  /** A non-empty pool always has a nearest entry. */
  lemma {:induction false} NearestExists(pool: multiset<Entry>, query: Color)
    requires |pool| > 0
    ensures exists e :: IsNearest(e, pool, query)
    decreases |pool|
  {
    var x :| x in pool;
    var rest := pool - multiset{x};
    assert pool == rest + multiset{x};
    if |rest| == 0 {
      assert pool == multiset{x};
      assert IsNearest(x, pool, query);
    } else {
      NearestExists(rest, query);
      var y :| IsNearest(y, rest, query);
      if SqDist(x.color, query) <= SqDist(y.color, query) {
        assert IsNearest(x, pool, query);
      } else {
        assert IsNearest(y, pool, query);
      }
    }
  }

  /**
   * One search for `query` taking the list from (`avail`, `used`) to
   * (`avail'`, `used'`): when the tree is empty and something has been used,
   * the tree is first rebuilt from the used entries; then a nearest available
   * entry `picked` is moved to the used ones and its name returned. With
   * nothing at all to hand out the result is None and nothing changes.
   */
  ghost predicate Searched(avail: multiset<Entry>, used: seq<Entry>,
                           avail': multiset<Entry>, used': seq<Entry>,
                           query: Color, r: Option<string>, picked: Entry)
  {
    && (avail == multiset{} && used == [] ==> r == None && avail' == avail && used' == used)
    && (avail != multiset{} ==>
          && IsNearest(picked, avail, query)
          && r == Some(picked.filename)
          && avail' == avail - multiset{picked}
          && used' == used + [picked])
    && (avail == multiset{} && used != [] ==>
          && IsNearest(picked, multiset(used), query)
          && r == Some(picked.filename)
          && avail' == multiset(used) - multiset{picked}
          && used' == [picked])
  }

  /** A search neither loses nor invents entries: the pool is unchanged. */
  lemma SearchKeepsPool(avail: multiset<Entry>, used: seq<Entry>, avail': multiset<Entry>, used': seq<Entry>,
                        query: Color, r: Option<string>, picked: Entry)
    requires Searched(avail, used, avail', used', query, r, picked)
    ensures avail' + multiset(used') == avail + multiset(used)
    ensures (r == None) == (avail + multiset(used) == multiset{})
    ensures r != None ==> r == Some(picked.filename) && picked in avail + multiset(used)
  {
    if avail != multiset{} {
      assert picked in avail;
      assert multiset(used + [picked]) == multiset(used) + multiset{picked};
    } else if used != [] {
      assert picked in multiset(used);
      assert multiset([picked]) == multiset{picked};
    }
  }

  class ImageList {
    /** The entries still in the k-d tree. */
    var available: multiset<Entry>
    /** `_used`: the entries handed out since the tree was last built, in order. */
    var used: seq<Entry>

    /** Every entry the list manages, handed out or not. */
    ghost function Pool(): multiset<Entry>
      reads this
    {
      available + multiset(used)
    }

    /** Builds the tree over all the given tiles; nothing is used yet. */
    constructor (tiles: seq<Entry>)
      ensures available == multiset(tiles) && used == []
    {
      available := multiset(tiles);
      used := [];
    }

    /** `_reset`: rebuilds the tree from the used entries, if there are any. */
    method Reset()
      modifies this
      ensures old(used) != [] ==> available == multiset(old(used)) && used == []
      ensures old(used) == [] ==> available == old(available) && used == old(used)
      ensures old(available) == multiset{} ==> Pool() == old(Pool())
    {
      if |used| > 0 {
        available := multiset(used);
        used := [];
      }
    }

    /** `search(color)`: one step as `Searched` describes it. */
    method Search(query: Color) returns (r: Option<string>, ghost picked: Entry)
      modifies this
      ensures Searched(old(available), old(used), available, used, query, r, picked)
    {
      if |used| > 0 && |available| == 0 {
        Reset();
      }
      if |available| > 0 {
        NearestExists(available, query);
        var e :| IsNearest(e, available, query);
        available := available - multiset{e};
        used := used + [e];
        return Some(e.filename), e;
      }
      return None, Entry("", Color(0, 0, 0));
    }
  }

  /**
   * `used` is what successive searches for `colors` hand out from `pool` when
   * nothing is put back: each entry is a nearest one to its colour among the
   * entries not handed out before it.
   */
  ghost predicate NearestInTurn(pool: multiset<Entry>, used: seq<Entry>, colors: seq<Color>)
    decreases |used|
  {
    || used == []
    || (&& colors != []
        && IsNearest(used[0], pool, colors[0])
        && NearestInTurn(pool - multiset{used[0]}, used[1..], colors[1..]))
  }

  /** Taking out the entries of `used` is taking out its first, then the rest. */
  lemma RemoveFirst(pool: multiset<Entry>, used: seq<Entry>)
    requires used != []
    ensures pool - multiset(used) == (pool - multiset{used[0]}) - multiset(used[1..])
  {
    assert used == [used[0]] + used[1..];
    assert multiset(used) == multiset{used[0]} + multiset(used[1..]);
  }

  /** Handing out a nearest remaining entry extends the sequence handed out in turn. */
  lemma {:induction false} NearestInTurnStep(pool: multiset<Entry>, used: seq<Entry>,
                                             colors: seq<Color>, picked: Entry)
    requires NearestInTurn(pool, used, colors) && |used| < |colors|
    requires IsNearest(picked, pool - multiset(used), colors[|used|])
    ensures NearestInTurn(pool, used + [picked], colors)
    decreases |used|
  {
    var after := used + [picked];
    if used == [] {
      assert after[1..] == [];
    } else {
      RemoveFirst(pool, used);
      NearestInTurnStep(pool - multiset{used[0]}, used[1..], colors[1..], picked);
      assert after[1..] == used[1..] + [picked];
    }
  }

  /** Entries handed out in turn are drawn from the pool, none twice. */
  lemma {:induction false} InTurnDrawsFromPool(pool: multiset<Entry>, used: seq<Entry>, colors: seq<Color>)
    requires NearestInTurn(pool, used, colors)
    ensures multiset(used) <= pool
    decreases |used|
  {
    if used != [] {
      InTurnDrawsFromPool(pool - multiset{used[0]}, used[1..], colors[1..]);
      assert used == [used[0]] + used[1..];
      assert multiset(used) == multiset{used[0]} + multiset(used[1..]);
    }
  }

  /** A round as long as the pool hands out every entry of the pool exactly once. */
  lemma FullRoundUsesEveryEntry(pool: multiset<Entry>, used: seq<Entry>, colors: seq<Color>)
    requires NearestInTurn(pool, used, colors) && |used| == |pool|
    ensures multiset(used) == pool
  {
    InTurnDrawsFromPool(pool, used, colors);
    var rest := pool - multiset(used);
    assert pool == multiset(used) + rest;
  }

  /**
   * `picks` is what successive searches for `colors` hand out from a list
   * freshly built over `pool`: rounds of `|pool|` searches, each handing out
   * the entries in turn, nearest first, and each starting over from the
   * whole pool.
   */
  ghost predicate GreedyRounds(pool: multiset<Entry>, picks: seq<Entry>, colors: seq<Color>)
    decreases |picks|
  {
    if |picks| <= |pool| then NearestInTurn(pool, picks, colors)
    else
      && |pool| > 0 && |pool| <= |colors|
      && NearestInTurn(pool, picks[..|pool|], colors)
      && GreedyRounds(pool, picks[|pool|..], colors[|pool|..])
  }

  /** The round in progress: the picks since the list last started over. */
  ghost function LastRound(pool: multiset<Entry>, picks: seq<Entry>): (round: seq<Entry>)
    ensures |round| <= |pool| || |pool| == 0
    decreases |picks|
  {
    if |picks| <= |pool| || |pool| == 0 then picks else LastRound(pool, picks[|pool|..])
  }

  /** A pick inside the first round extends it. */
  lemma RoundsStepWithin(pool: multiset<Entry>, picks: seq<Entry>, colors: seq<Color>, picked: Entry)
    requires |picks| < |pool| && GreedyRounds(pool, picks, colors) && |picks| < |colors|
    requires IsNearest(picked, pool - multiset(picks), colors[|picks|])
    ensures GreedyRounds(pool, picks + [picked], colors)
    ensures LastRound(pool, picks + [picked]) == picks + [picked]
  {
    NearestInTurnStep(pool, picks, colors, picked);
  }

  /** A pick right after a complete first round begins the second. */
  lemma RoundsStepRestart(pool: multiset<Entry>, picks: seq<Entry>, colors: seq<Color>, picked: Entry)
    requires |picks| == |pool| > 0 && GreedyRounds(pool, picks, colors) && |picks| < |colors|
    requires IsNearest(picked, pool, colors[|picks|])
    ensures GreedyRounds(pool, picks + [picked], colors)
    ensures LastRound(pool, picks + [picked]) == [picked]
  {
    var n, after := |pool|, picks + [picked];
    assert after[..n] == picks;
    assert after[n..] == [picked];
    assert colors[n..][0] == colors[n];
    assert NearestInTurn(pool - multiset{picked}, [picked][1..], colors[n..][1..]);
    assert NearestInTurn(pool, [picked], colors[n..]);
    assert LastRound(pool, [picked]) == [picked];
  }

  /**
   * One more pick: nearest among what the round in progress left, or, once
   * the round is complete, nearest in the whole pool as a new round begins.
   */
  lemma {:induction false} RoundsStep(pool: multiset<Entry>, picks: seq<Entry>, colors: seq<Color>, picked: Entry)
    requires |pool| > 0 && GreedyRounds(pool, picks, colors) && |picks| < |colors|
    requires |LastRound(pool, picks)| < |pool| ==>
               IsNearest(picked, pool - multiset(LastRound(pool, picks)), colors[|picks|])
    requires |LastRound(pool, picks)| == |pool| ==> IsNearest(picked, pool, colors[|picks|])
    ensures GreedyRounds(pool, picks + [picked], colors)
    ensures LastRound(pool, picks + [picked])
         == if |LastRound(pool, picks)| < |pool| then LastRound(pool, picks) + [picked] else [picked]
    decreases |picks|
  {
    var n := |pool|;
    if |picks| < n {
      RoundsStepWithin(pool, picks, colors, picked);
    } else if |picks| == n {
      RoundsStepRestart(pool, picks, colors, picked);
    } else {
      var after := picks + [picked];
      assert colors[n..][|picks| - n] == colors[|picks|];
      RoundsStep(pool, picks[n..], colors[n..], picked);
      assert after[..n] == picks[..n];
      assert after[n..] == picks[n..] + [picked];
    }
  }

  /** The first round of a run of greedy rounds hands out entries in turn, none twice. */
  lemma FirstRound(pool: multiset<Entry>, picks: seq<Entry>, colors: seq<Color>)
    requires GreedyRounds(pool, picks, colors)
    ensures var first := if |picks| <= |pool| then picks else picks[..|pool|];
            NearestInTurn(pool, first, colors) && multiset(first) <= pool
  {
    var first := if |picks| <= |pool| then picks else picks[..|pool|];
    InTurnDrawsFromPool(pool, first, colors);
  }

  /** How many entries are marked used after `i` searches from a fresh list of `n`. */
  function UsedAfter(i: nat, n: nat): nat
  {
    if i == 0 || n == 0 then 0 else (i - 1) % n + 1
  }

  /** The remainder of `x` by a positive `d` is determined by one decomposition. */
  lemma ModUnique(x: int, d: int, q: int, rem: int)
    requires d > 0 && 0 <= rem < d && x == d * q + rem
    ensures x % d == rem
  {
    DivUnique(x, d, q);
  }

  /** Counting calls modulo `n`: after the last slot the count starts over. */
  lemma ModStep(i: int, n: int)
    requires n > 0 && i >= 1
    ensures (i - 1) % n == n - 1 ==> i % n == 0
    ensures (i - 1) % n != n - 1 ==> i % n == (i - 1) % n + 1
  {
    var q, rem := (i - 1) / n, (i - 1) % n;
    assert i - 1 == n * q + rem;
    if rem == n - 1 {
      ModUnique(i, n, q + 1, 0);
    } else {
      ModUnique(i, n, q, rem + 1);
    }
  }

  /**
   * One more search against a list of `n` entries: it takes one more, or,
   * with none left, starts over with one taken.
   */
  lemma CountStep(n: nat, i: nat, avail: multiset<Entry>, used: seq<Entry>, used': seq<Entry>)
    requires n > 0 && |avail + multiset(used)| == n && |used| == UsedAfter(i, n)
    requires avail != multiset{} ==> |used'| == |used| + 1
    requires avail == multiset{} ==> |used'| == 1
    ensures |used'| == UsedAfter(i + 1, n)
  {
    if i > 0 {
      ModStep(i, n);
    }
  }

  /**
   * What the searches for the first `|results|` colours have done to a list
   * that started as (`avail0`, `used0`); `picks` are the entries they handed
   * out, in order.
   */
  ghost predicate MatchedSoFar(avail0: multiset<Entry>, used0: seq<Entry>, avail: multiset<Entry>, used: seq<Entry>,
                               results: seq<Option<string>>, picks: seq<Entry>, colors: seq<Color>)
  {
    && |results| <= |colors|
    && Accounted(avail0 + multiset(used0), avail, used, results, picks)
    && (used0 == [] ==> |used| == UsedAfter(|results|, |avail0|))
    && (used0 == [] && avail0 != multiset{} ==>
          used == LastRound(avail0, picks) && GreedyRounds(avail0, picks, colors))
  }

  /**
   * The list still holds exactly the entries of `pool0`. With an empty pool
   * every search found nothing; otherwise every search named an entry of
   * the pool, the one it handed out.
   */
  ghost predicate Accounted(pool0: multiset<Entry>, avail: multiset<Entry>, used: seq<Entry>,
                            results: seq<Option<string>>, picks: seq<Entry>)
  {
    && |results| == |picks|
    && avail + multiset(used) == pool0
    && (pool0 == multiset{} ==> avail == multiset{} && used == [] && forall k :: 0 <= k < |results| ==> results[k] == None)
    && (pool0 != multiset{} ==>
          forall k :: 0 <= k < |results| ==> results[k] == Some(picks[k].filename) && picks[k] in pool0)
  }

  /** One search keeps the list accounted for. */
  lemma AccountedStep(pool0: multiset<Entry>, avail: multiset<Entry>, used: seq<Entry>, avail': multiset<Entry>,
                      used': seq<Entry>, results: seq<Option<string>>, picks: seq<Entry>,
                      query: Color, r: Option<string>, picked: Entry)
    requires Accounted(pool0, avail, used, results, picks)
    requires Searched(avail, used, avail', used', query, r, picked)
    ensures Accounted(pool0, avail', used', results + [r], picks + [picked])
  {
    SearchKeepsPool(avail, used, avail', used', query, r, picked);
  }

  /** The tree is empty exactly when every entry of the pool is marked used. */
  lemma PoolSize(pool: multiset<Entry>, avail: multiset<Entry>, used: seq<Entry>)
    requires avail + multiset(used) == pool
    ensures |pool| == |avail| + |used|
    ensures avail == multiset{} <==> |used| == |pool|
  {
  }

  /** Moving an available entry to the used ones keeps within the pool. */
  lemma TakeOne(pool: multiset<Entry>, avail: multiset<Entry>, used: seq<Entry>)
    requires avail + multiset(used) == pool
    ensures avail == pool - multiset(used)
  {
  }

  /** A search on a list freshly built over `avail0` extends its greedy rounds by one pick. */
  lemma FreshStep(avail0: multiset<Entry>, avail: multiset<Entry>, used: seq<Entry>, avail': multiset<Entry>,
                  used': seq<Entry>, picks: seq<Entry>, colors: seq<Color>, r: Option<string>, picked: Entry)
    requires avail0 != multiset{} && avail + multiset(used) == avail0
    requires used == LastRound(avail0, picks) && GreedyRounds(avail0, picks, colors) && |picks| < |colors|
    requires Searched(avail, used, avail', used', colors[|picks|], r, picked)
    ensures used' == LastRound(avail0, picks + [picked]) && GreedyRounds(avail0, picks + [picked], colors)
  {
    PoolSize(avail0, avail, used);
    if avail != multiset{} {
      TakeOne(avail0, avail, used);
    } else {
      assert multiset(used) == avail0;
    }
    RoundsStep(avail0, picks, colors, picked);
  }

  /** One search keeps `MatchedSoFar`. */
  lemma MatchStep(avail0: multiset<Entry>, used0: seq<Entry>, avail: multiset<Entry>, used: seq<Entry>,
                  avail': multiset<Entry>, used': seq<Entry>, results: seq<Option<string>>, picks: seq<Entry>,
                  colors: seq<Color>, r: Option<string>, picked: Entry)
    requires MatchedSoFar(avail0, used0, avail, used, results, picks, colors) && |results| < |colors|
    requires Searched(avail, used, avail', used', colors[|results|], r, picked)
    ensures MatchedSoFar(avail0, used0, avail', used', results + [r], picks + [picked], colors)
  {
    var i, n := |results|, |avail0|;
    AccountedStep(avail0 + multiset(used0), avail, used, avail', used', results, picks, colors[i], r, picked);
    if used0 == [] && n > 0 {
      assert avail + multiset(used) == avail0;
      CountStep(n, i, avail, used, used');
      FreshStep(avail0, avail, used, avail', used', picks, colors, r, picked);
    }
  }

  /**
   * `_search_matching_images`: one search per colour, in order. Against a
   * freshly built list of `n` entries the first `n` searches hand out each
   * entry once, each the nearest of those left; after that the list starts
   * over every `n` searches.
   */
  method SearchMatching(list: ImageList, colors: seq<Color>)
    returns (results: seq<Option<string>>, ghost picks: seq<Entry>)
    modifies list
    ensures |results| == |colors|
    ensures MatchedSoFar(old(list.available), old(list.used), list.available, list.used, results, picks, colors)
  {
    ghost var avail0, used0 := list.available, list.used;
    results, picks := [], [];
    var i := 0;
    while i < |colors|
      invariant i == |results|
      invariant MatchedSoFar(avail0, used0, list.available, list.used, results, picks, colors)
    {
      ghost var avail, used := list.available, list.used;
      var r, picked := list.Search(colors[i]);
      MatchStep(avail0, used0, avail, used, list.available, list.used, results, picks, colors, r, picked);
      results, picks := results + [r], picks + [picked];
      i := i + 1;
    }
  }
}
