/**
 * The vault page of src/app/vault-access/page.tsx: the Latest/Oldest sort
 * order it keeps, the list it arranges in that order, and what it draws
 * (four skeletons, the empty message or a grid of cards).
 */
module Vault {
  import opened Types
  import opened Card
  import opened Sorting

  datatype SortOrder = Latest | Oldest

  /** A button's look: filled for the active order, outlined otherwise. */
  datatype Variant = Default | Outline

  /** The page's state: the chosen sort order. */
  class VaultPage {
    var sortOrder: SortOrder

    /** The page opens sorted by latest. */
    constructor ()
      ensures sortOrder == Latest
    {
      sortOrder := Latest;
    }

    /** The "Latest" button. */
    method PressLatest()
      modifies this
      ensures sortOrder == Latest
    {
      sortOrder := Latest;
    }

    /** The "Oldest" button. */
    method PressOldest()
      modifies this
      ensures sortOrder == Oldest
    {
      sortOrder := Oldest;
    }

    /** The look of the button for `button`: exactly the active order's button is filled. */
    function ButtonVariant(button: SortOrder): (v: Variant)
      reads this
      ensures v == Default <==> button == sortOrder
    {
      if button == sortOrder then Default else Outline
    }
  }

  /** Pressing a button twice leaves the same order as pressing it once, whatever the order was before. */
  method PressTwice(start: SortOrder, button: SortOrder) returns (once: SortOrder, twice: SortOrder)
    ensures once == twice == button
  {
    var page := new VaultPage();
    if start == Oldest { page.PressOldest(); }
    if button == Latest { page.PressLatest(); } else { page.PressOldest(); }
    once := page.sortOrder;
    if button == Latest { page.PressLatest(); } else { page.PressOldest(); }
    twice := page.sortOrder;
  }

  function DirectionOf(order: SortOrder): Direction {
    if order == Latest then NewestFirst else OldestFirst
  }

  /**
   * `[...shoutouts].sort(...)`: a new list, by non-increasing `createdAt` for
   * "latest" and non-decreasing for "oldest", holding the same entries, with
   * entries of equal age in their stored order.
   */
  function Arrange(shoutouts: seq<Shoutout>, order: SortOrder): (r: seq<Shoutout>)
    ensures order == Latest ==> forall i, j :: 0 <= i < j < |r| ==> r[i].createdAt >= r[j].createdAt
    ensures order == Oldest ==> forall i, j :: 0 <= i < j < |r| ==> r[i].createdAt <= r[j].createdAt
    ensures multiset(r) == multiset(shoutouts) && |r| == |shoutouts|
    ensures forall t :: CreatedAt(r, t) == CreatedAt(shoutouts, t)
  {
    var r := Sort(shoutouts, DirectionOf(order));
    assert forall i, j :: 0 <= i < j < |r| ==> InOrder(r[i], r[j], DirectionOf(order));
    r
  }

  /** What the vault draws. */
  datatype VaultView = Skeletons(count: nat) | NothingYet | Grid(cards: seq<CardProps>)

  /**
   * Before the store is initialized, four skeletons; then the empty message
   * for an empty list, or a grid with one card per entry in the chosen order.
   */
  function Page(shoutouts: seq<Shoutout>, initialized: bool, order: SortOrder): (v: VaultView)
    ensures !initialized <==> v == Skeletons(4)
    ensures v == NothingYet <==> initialized && shoutouts == []
    ensures v.Grid? ==> initialized && |v.cards| == |shoutouts| > 0
    ensures v.Grid? ==> forall i :: 0 <= i < |v.cards| ==> v.cards[i].shoutout == Arrange(shoutouts, order)[i]
    ensures v.Grid? ==> v.cards == CardsFor(Arrange(shoutouts, order))
  {
    if !initialized then Skeletons(4)
    else
      var sorted := Arrange(shoutouts, order);
      if |sorted| > 0 then Grid(CardsFor(sorted)) else NothingYet
  }

  function Reverse(s: seq<Shoutout>): (r: seq<Shoutout>)
    ensures |r| == |s| && forall i :: 0 <= i < |s| ==> r[i] == s[|s| - 1 - i]
  {
    if s == [] then [] else [s[|s| - 1]] + Reverse(s[..|s| - 1])
  }

  /** No two entries share a `createdAt`. */
  predicate DistinctTimes(s: seq<Shoutout>) {
    forall i, j :: 0 <= i < j < |s| ==> s[i].createdAt != s[j].createdAt
  }

  /** When no two shoutouts share a timestamp, the two buttons show exactly opposite orders. */
  lemma {:induction false} OppositeOrders(xs: seq<Shoutout>)
    requires DistinctTimes(xs)
    ensures Arrange(xs, Oldest) == Reverse(Arrange(xs, Latest))
  {
    var latest := Arrange(xs, Latest);
    ReverseSorted(latest);
    ReverseSameGroups(xs, latest);
    SortUnique(xs, Reverse(latest), OldestFirst);
  }

  /** A list newest first, reversed, is oldest first. */
  lemma ReverseSorted(s: seq<Shoutout>)
    requires SortedBy(s, NewestFirst)
    ensures SortedBy(Reverse(s), OldestFirst)
  {
    var r := Reverse(s);
    forall i, j | 0 <= i < j < |r| ensures InOrder(r[i], r[j], OldestFirst) {
      assert InOrder(s[|s| - 1 - j], s[|s| - 1 - i], NewestFirst);
    }
  }

  /** With distinct timestamps, reversing an arrangement keeps every timestamp group. */
  lemma ReverseSameGroups(xs: seq<Shoutout>, s: seq<Shoutout>)
    requires DistinctTimes(xs)
    requires forall t :: CreatedAt(s, t) == CreatedAt(xs, t)
    ensures forall t :: CreatedAt(Reverse(s), t) == CreatedAt(xs, t)
  {
    forall t ensures CreatedAt(Reverse(s), t) == CreatedAt(xs, t) {
      CreatedAtReverse(s, t);
      AtMostOnePerTime(xs, t);
      ReverseShort(CreatedAt(s, t));
    }
  }

  lemma ReverseShort(g: seq<Shoutout>)
    requires |g| <= 1
    ensures Reverse(g) == g
  {
    if |g| == 1 { assert Reverse(g)[0] == g[0]; }
  }

  /** With distinct timestamps, each timestamp group has at most one entry. */
  lemma {:induction false} AtMostOnePerTime(s: seq<Shoutout>, t: int)
    requires DistinctTimes(s)
    ensures |CreatedAt(s, t)| <= 1
  {
    if s != [] {
      assert DistinctTimes(s[1..]);
      if s[0].createdAt == t {
        NoneAtTime(s[1..], t);
      } else {
        AtMostOnePerTime(s[1..], t);
      }
    }
  }

  lemma {:induction false} NoneAtTime(s: seq<Shoutout>, t: int)
    requires forall i :: 0 <= i < |s| ==> s[i].createdAt != t
    ensures CreatedAt(s, t) == []
  {
    if s != [] {
      NoneAtTime(s[1..], t);
    }
  }

  lemma {:induction false} CreatedAtAppend(a: seq<Shoutout>, b: seq<Shoutout>, t: int)
    ensures CreatedAt(a + b, t) == CreatedAt(a, t) + CreatedAt(b, t)
  {
    if a == [] {
      assert a + b == b;
    } else {
      var g0 := if a[0].createdAt == t then [a[0]] else [];
      assert (a + b)[0] == a[0] && (a + b)[1..] == a[1..] + b;
      CreatedAtAppend(a[1..], b, t);
      assert CreatedAt(a + b, t) == g0 + (CreatedAt(a[1..], t) + CreatedAt(b, t));
      assert CreatedAt(a, t) == g0 + CreatedAt(a[1..], t);
    }
  }

  lemma {:induction false} ReverseAppend(a: seq<Shoutout>, b: seq<Shoutout>)
    ensures Reverse(a + b) == Reverse(b) + Reverse(a)
  {
  }

  /** Reversing a list reverses each of its timestamp groups. */
  lemma {:induction false} CreatedAtReverse(s: seq<Shoutout>, t: int)
    ensures CreatedAt(Reverse(s), t) == Reverse(CreatedAt(s, t))
    decreases |s|
  {
    if s != [] {
      var init, last := s[..|s| - 1], s[|s| - 1];
      assert s == init + [last];
      CreatedAtAppend(init, [last], t);
      CreatedAtAppend([last], Reverse(init), t);
      CreatedAtReverse(init, t);
      ReverseAppend(CreatedAt(init, t), CreatedAt([last], t));
      assert Reverse(CreatedAt([last], t)) == CreatedAt([last], t);
    }
  }
}
