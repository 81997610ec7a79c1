/**
 * The expiry policy of the feed store (src/hooks/use-shoutouts.ts): a shoutout
 * is live while it is younger than one hour, and the store keeps only the live
 * entries, in their stored order.
 */
module Expiry {
  import opened Types

  /** Time to live: one hour, in milliseconds. */
  const TTL: int := 1 * 60 * 60 * 1000

  /** `(now - s.createdAt) < TTL`: an entry exactly TTL old is no longer live. */
  predicate IsLive(s: Shoutout, now: int) {
    now - s.createdAt < TTL
  }

  /** `all.filter(s => (now - s.createdAt) < TTL)`. */
  function FilterLive(xs: seq<Shoutout>, now: int): (r: seq<Shoutout>)
    ensures |r| <= |xs|
    ensures forall s :: s in r <==> s in xs && IsLive(s, now)
  {
    if xs == [] then []
    else if IsLive(xs[0], now) then [xs[0]] + FilterLive(xs[1..], now)
    else FilterLive(xs[1..], now)
  }

  /** The filter keeps every copy of a live entry and no copy of an expired one. */
  lemma {:induction false} FilterLiveCounts(xs: seq<Shoutout>, now: int)
    ensures forall s :: multiset(FilterLive(xs, now))[s] == if IsLive(s, now) then multiset(xs)[s] else 0
  {
    if xs != [] {
      FilterLiveCounts(xs[1..], now);
      assert xs == [xs[0]] + xs[1..];
    }
  }

  /** Filtering a concatenation filters each part: the filter decides entry by entry. */
  lemma {:induction false} FilterLiveAppend(xs: seq<Shoutout>, ys: seq<Shoutout>, now: int)
    ensures FilterLive(xs + ys, now) == FilterLive(xs, now) + FilterLive(ys, now)
  {
    if xs == [] {
      assert xs + ys == ys;
    } else {
      assert (xs + ys)[0] == xs[0] && (xs + ys)[1..] == xs[1..] + ys;
      FilterLiveAppend(xs[1..], ys, now);
    }
  }

  /** `a` is `b` with some entries left out and the rest in their original order. */
  predicate IsSubsequence(a: seq<Shoutout>, b: seq<Shoutout>)
    decreases |b|
  {
    if a == [] then true
    else if b == [] then false
    else (a[0] == b[0] && IsSubsequence(a[1..], b[1..])) || IsSubsequence(a, b[1..])
  }

  /** The live set: TTL is 3,600,000 ms, and an entry exactly that old is dropped. */
  lemma LiveBoundary(s: Shoutout, now: int)
    ensures IsLive(s, now) <==> now - s.createdAt < 3_600_000
    ensures !IsLive(s, s.createdAt + 3_600_000) && IsLive(s, s.createdAt + 3_599_999)
  {
  }

  /** The filter keeps an order-preserving subsequence of its input. */
  lemma {:induction false} FilterLiveIsSubsequence(xs: seq<Shoutout>, now: int)
    ensures IsSubsequence(FilterLive(xs, now), xs)
  {
    if xs != [] {
      FilterLiveIsSubsequence(xs[1..], now);
      var r := FilterLive(xs, now);
      if !IsLive(xs[0], now) && r != [] {
        assert IsSubsequence(r, xs[1..]);
      }
    }
  }

  /** Filtering twice at the same instant is filtering once. */
  lemma {:induction false} FilterLiveIdempotent(xs: seq<Shoutout>, now: int)
    ensures FilterLive(FilterLive(xs, now), now) == FilterLive(xs, now)
  {
    if xs != [] {
      FilterLiveIdempotent(xs[1..], now);
      if IsLive(xs[0], now) {
        var t := FilterLive(xs[1..], now);
        assert ([xs[0]] + t)[1..] == t;
      }
    }
  }

  /** Nothing is dropped exactly when every entry is live, and then the list comes back unchanged. */
  lemma {:induction false} FilterLiveKeepsAll(xs: seq<Shoutout>, now: int)
    ensures |FilterLive(xs, now)| == |xs| <==> forall i :: 0 <= i < |xs| ==> IsLive(xs[i], now)
    ensures |FilterLive(xs, now)| == |xs| ==> FilterLive(xs, now) == xs
  {
    if xs != [] {
      var t := FilterLive(xs[1..], now);
      FilterLiveKeepsAll(xs[1..], now);
      assert forall i :: 1 <= i < |xs| ==> xs[i] == xs[1..][i - 1];
      if !IsLive(xs[0], now) {
        assert FilterLive(xs, now) == t && |t| <= |xs[1..]|;
      } else {
        assert FilterLive(xs, now) == [xs[0]] + t;
        assert xs == [xs[0]] + xs[1..];
      }
    }
  }

  /** Filtering at a later instant drops at least what an earlier one dropped. */
  lemma {:induction false} FilterLiveLater(xs: seq<Shoutout>, earlier: int, later: int)
    requires earlier <= later
    ensures FilterLive(FilterLive(xs, earlier), later) == FilterLive(xs, later)
  {
    if xs != [] {
      FilterLiveLater(xs[1..], earlier, later);
      if IsLive(xs[0], earlier) {
        var t := FilterLive(xs[1..], earlier);
        assert ([xs[0]] + t)[1..] == t;
      }
    }
  }

  /** Filtering never introduces a repeated id. */
  lemma {:induction false} FilterLiveKeepsDistinctIds(xs: seq<Shoutout>, now: int)
    requires DistinctIds(xs)
    ensures DistinctIds(FilterLive(xs, now))
  {
    if xs != [] {
      FilterLiveKeepsDistinctIds(xs[1..], now);
      var t := FilterLive(xs[1..], now);
      if IsLive(xs[0], now) {
        forall j | 0 <= j < |t| ensures t[j].id != xs[0].id {
          assert t[j] in xs[1..];
        }
        var r := [xs[0]] + t;
        forall i, j | 0 <= i < j < |r| ensures r[i].id != r[j].id {
          if i > 0 { assert r[i] == t[i - 1] && r[j] == t[j - 1]; }
        }
      }
    }
  }
}
