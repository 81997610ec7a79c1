/**
 * The live feed of src/components/shoutout-display.tsx: what it draws for the
 * store's list (a skeleton, the empty state or a carousel of cards, newest
 * first) and the "Shoutout i of n" counter it keeps from the carousel.
 */
module Display {
  import opened Types
  import opened Card
  import opened Sorting

  /** What the feed draws. */
  datatype FeedView =
    | FeedSkeleton
    | NoShoutoutsYet
    | FeedCarousel(cards: seq<CardProps>, loop: bool, controls: bool)

  /** The shoutouts carried by a list of cards, in order. */
  function Shown(cards: seq<CardProps>): (xs: seq<Shoutout>)
    ensures |xs| == |cards| && forall i :: 0 <= i < |cards| ==> xs[i] == cards[i].shoutout
  {
    seq(|cards|, i requires 0 <= i < |cards| => cards[i].shoutout)
  }

  /**
   * `ShoutoutDisplay`: before the store is initialized only the skeleton,
   * whatever the list holds; an empty list gives the empty state; otherwise a
   * carousel of the list sorted newest first, with looping and the previous
   * and next controls only when there is more than one card.
   */
  function LiveFeed(shoutouts: seq<Shoutout>, initialized: bool): (v: FeedView)
    ensures !initialized <==> v == FeedSkeleton
    ensures v == NoShoutoutsYet <==> initialized && shoutouts == []
    ensures v.FeedCarousel? ==>
      && SortedBy(Shown(v.cards), NewestFirst)
      && multiset(Shown(v.cards)) == multiset(shoutouts)
      && (forall t :: CreatedAt(Shown(v.cards), t) == CreatedAt(shoutouts, t))
      && v.cards == CardsFor(Shown(v.cards))
      && v.loop == v.controls == (|shoutouts| > 1)
  {
    if !initialized then FeedSkeleton
    else
      var sorted := Sort(shoutouts, NewestFirst);
      if |sorted| > 0 then
        var cards := CardsFor(sorted);
        assert Shown(cards) == sorted;
        FeedCarousel(cards, |sorted| > 1, |sorted| > 1)
      else NoShoutoutsYet
  }

  /** The carousel's first card is a newest shoutout of the list. */
  lemma {:induction false} FirstCardIsNewest(shoutouts: seq<Shoutout>, s: Shoutout)
    requires s in shoutouts
    ensures LiveFeed(shoutouts, true).FeedCarousel?
    ensures LiveFeed(shoutouts, true).cards[0].shoutout.createdAt >= s.createdAt
  {
    var v := LiveFeed(shoutouts, true);
    var shown := Shown(v.cards);
    assert s in multiset(shoutouts);
    assert s in multiset(shown);
    var k :| 0 <= k < |shown| && shown[k] == s;
    if k > 0 {
      assert InOrder(shown[0], shown[k], NewestFirst);
    }
  }

  /** The counter under the carousel: the selected slide (from one) and the number of slides. */
  class SlideCounter {
    var current: nat
    var count: nat

    constructor ()
      ensures current == 0 && count == 0
    {
      current := 0;
      count := 0;
    }

    /** The effect once the carousel is ready, and its "reInit" handler: read the snap count and the selection. */
    method Sync(snapCount: nat, selected: nat)
      modifies this
      ensures count == snapCount && current == selected + 1
    {
      count := snapCount;
      current := selected + 1;
    }

    /** The "select" handler: only the selection is read again. */
    method Select(selected: nat)
      modifies this
      ensures current == selected + 1 && count == old(count)
    {
      current := selected + 1;
    }

    /** The counter line: shown only while the carousel reports at least one slide. */
    function Text(): (r: Option<string>)
      reads this
      ensures r.Some? <==> count > 0
      ensures r.Some? ==> r.value == "Shoutout " + Decimal(current) + " of " + Decimal(count)
    {
      if count > 0 then Some("Shoutout " + Decimal(current) + " of " + Decimal(count)) else None
    }
  }

  /**
   * A fresh counter shows nothing; once the carousel reports its slides it
   * reads "Shoutout 1 of n" for n slides with the first selected, and after a
   * later selection of slide `k` it reads k + 1 of the same n.
   */
  method CounterLifecycle(snapCount: nat, selected: nat)
    returns (before: Option<string>, ready: Option<string>, after: Option<string>)
    ensures before == None
    ensures snapCount == 0 ==> ready == None && after == None
    ensures snapCount > 0 ==> ready == Some("Shoutout 1 of " + Decimal(snapCount))
    ensures snapCount > 0 ==> after == Some("Shoutout " + Decimal(selected + 1) + " of " + Decimal(snapCount))
  {
    var counter := new SlideCounter();
    before := counter.Text();
    counter.Sync(snapCount, 0);
    ready := counter.Text();
    assert Decimal(1) == "1";
    assert "Shoutout " + Decimal(1) + " of " + Decimal(snapCount) == "Shoutout 1 of " + Decimal(snapCount);
    counter.Select(selected);
    after := counter.Text();
  }
}
