/**
 * Ordering of shoutouts by `createdAt` for display: the comparators
 * `(a, b) => b.createdAt - a.createdAt` (newest first) and
 * `(a, b) => a.createdAt - b.createdAt` (oldest first), applied by
 * JavaScript's stable `Array.prototype.sort` to a copy of the list.
 *
 * The sort is specified by three properties that together pin its result:
 * it is ordered, it is a permutation of the input, and entries with equal
 * timestamps keep their input order.
 */
module Sorting {
  import opened Types

  datatype Direction = NewestFirst | OldestFirst

  /** `a` may stand before `b`: the comparator does not put `b` first. */
  predicate InOrder(a: Shoutout, b: Shoutout, d: Direction) {
    match d
    case NewestFirst => a.createdAt >= b.createdAt
    case OldestFirst => a.createdAt <= b.createdAt
  }

  predicate SortedBy(s: seq<Shoutout>, d: Direction) {
    forall i, j :: 0 <= i < j < |s| ==> InOrder(s[i], s[j], d)
  }

  /** The entries of `s` created at instant `t`, in their order in `s`. */
  function CreatedAt(s: seq<Shoutout>, t: int): (r: seq<Shoutout>)
    ensures |r| <= |s|
  {
    if s == [] then []
    else (if s[0].createdAt == t then [s[0]] else []) + CreatedAt(s[1..], t)
  }

  /** Insert `x` before the first entry it may precede (so ahead of its equals). */
  function Insert(x: Shoutout, s: seq<Shoutout>, d: Direction): (r: seq<Shoutout>)
    ensures multiset(r) == multiset(s) + multiset{x}
    ensures |r| == |s| + 1
  {
    if s == [] || InOrder(x, s[0], d) then [x] + s
    else
      assert s == [s[0]] + s[1..];
      [s[0]] + Insert(x, s[1..], d)
  }

  /** Inserting into an ordered list keeps it ordered. */
  lemma {:induction false} InsertKeepsSorted(x: Shoutout, s: seq<Shoutout>, d: Direction)
    requires SortedBy(s, d)
    ensures SortedBy(Insert(x, s, d), d)
  {
    var r := Insert(x, s, d);
    if s == [] || InOrder(x, s[0], d) {
      forall i, j | 0 <= i < j < |r| ensures InOrder(r[i], r[j], d) {
        if i == 0 && j > 1 { assert InOrder(s[0], s[j - 1], d); }
      }
    } else {
      var rest := Insert(x, s[1..], d);
      SortedTail(s, d);
      InsertKeepsSorted(x, s[1..], d);
      InsertBound(x, s[1..], d, s[0]);
      assert r == [s[0]] + rest;
      forall i, j | 0 <= i < j < |r| ensures InOrder(r[i], r[j], d) {
        if i == 0 { assert r[j] == rest[j - 1]; }
        else { assert r[i] == rest[i - 1] && r[j] == rest[j - 1]; }
      }
    }
  }

  /** An entry that may precede `x` and all of `s` may precede all of `Insert(x, s, d)`. */
  lemma {:induction false} InsertBound(x: Shoutout, s: seq<Shoutout>, d: Direction, b: Shoutout)
    requires InOrder(b, x, d) && forall i :: 0 <= i < |s| ==> InOrder(b, s[i], d)
    ensures forall i :: 0 <= i < |Insert(x, s, d)| ==> InOrder(b, Insert(x, s, d)[i], d)
  {
    if s != [] && !InOrder(x, s[0], d) {
      InsertBound(x, s[1..], d, b);
    }
  }

  /** `x` joins its timestamp group ahead of the group's other members; other groups are untouched. */
  lemma {:induction false} InsertGroups(x: Shoutout, s: seq<Shoutout>, d: Direction, t: int)
    ensures CreatedAt(Insert(x, s, d), t) == (if x.createdAt == t then [x] else []) + CreatedAt(s, t)
  {
    var r := Insert(x, s, d);
    if s == [] || InOrder(x, s[0], d) {
      assert r[0] == x && r[1..] == s;
    } else {
      var gx := if x.createdAt == t then [x] else [];
      var g0 := if s[0].createdAt == t then [s[0]] else [];
      var tail := CreatedAt(s[1..], t);
      InsertGroups(x, s[1..], d, t);
      assert r[0] == s[0] && r[1..] == Insert(x, s[1..], d);
      assert CreatedAt(r, t) == g0 + (gx + tail);
      // `x` lies strictly on the far side of `s[0]`, so at most one of them is in this group.
      assert g0 == [] || gx == [];
      assert g0 + (gx + tail) == gx + (g0 + tail);
    }
  }

  /** `[...xs].sort(comparator)`: a stable sort, as an insertion sort from the back. */
  function Sort(xs: seq<Shoutout>, d: Direction): (r: seq<Shoutout>)
    ensures SortedBy(r, d)
    ensures multiset(r) == multiset(xs) && |r| == |xs|
    ensures forall t :: CreatedAt(r, t) == CreatedAt(xs, t)
  {
    if xs == [] then []
    else
      assert xs == [xs[0]] + xs[1..];
      var rest := Sort(xs[1..], d);
      InsertKeepsSorted(xs[0], rest, d);
      InsertGroupsAll(xs[0], rest, d);
      Insert(xs[0], rest, d)
  }

  lemma InsertGroupsAll(x: Shoutout, s: seq<Shoutout>, d: Direction)
    ensures forall t :: CreatedAt(Insert(x, s, d), t) == (if x.createdAt == t then [x] else []) + CreatedAt(s, t)
  {
    forall t { InsertGroups(x, s, d, t); }
  }

  /**
   * Any ordered, stable permutation of `xs` is the sort's result: the three
   * properties of `Sort` determine it.
   */
  lemma {:induction false} SortUnique(xs: seq<Shoutout>, r: seq<Shoutout>, d: Direction)
    requires SortedBy(r, d)
    requires |r| == |xs|
    requires forall t :: CreatedAt(r, t) == CreatedAt(xs, t)
    ensures r == Sort(xs, d)
  {
    SortedSameGroupsEqual(r, Sort(xs, d), d);
  }

  /** Two ordered lists with the same entries per timestamp are equal. */
  lemma {:induction false} SortedSameGroupsEqual(a: seq<Shoutout>, b: seq<Shoutout>, d: Direction)
    requires SortedBy(a, d) && SortedBy(b, d)
    requires forall t :: CreatedAt(a, t) == CreatedAt(b, t)
    ensures a == b
    decreases |a|
  {
    HeadInGroup(a);
    HeadInGroup(b);
    if a != [] && b != [] {
      SameHeads(a, b, d);
      SameTailGroups(a, b);
      SortedTail(a, d);
      SortedTail(b, d);
      SortedSameGroupsEqual(a[1..], b[1..], d);
      assert a == [a[0]] + a[1..] && b == [b[0]] + b[1..];
    }
  }

  /** Ordered lists with the same groups start with the same entry. */
  lemma SameHeads(a: seq<Shoutout>, b: seq<Shoutout>, d: Direction)
    requires a != [] && b != []
    requires SortedBy(a, d) && SortedBy(b, d)
    requires forall t :: CreatedAt(a, t) == CreatedAt(b, t)
    ensures a[0] == b[0]
  {
    var ta, tb := a[0].createdAt, b[0].createdAt;
    HeadInGroup(a);
    HeadInGroup(b);
    assert CreatedAt(b, ta) == CreatedAt(a, ta);
    assert CreatedAt(a, tb) == CreatedAt(b, tb);
    var k := GroupMember(b, ta);
    var m := GroupMember(a, tb);
    HeadFirst(b, k, d);
    HeadFirst(a, m, d);
    assert ta == tb;
    assert CreatedAt(a, ta)[0] == a[0];
    assert CreatedAt(b, tb)[0] == b[0];
  }

  lemma SortedTail(s: seq<Shoutout>, d: Direction)
    requires SortedBy(s, d) && s != []
    ensures SortedBy(s[1..], d)
  {
    forall i, j | 0 <= i < j < |s| - 1 ensures InOrder(s[1..][i], s[1..][j], d) {
      assert s[1..][i] == s[i + 1] && s[1..][j] == s[j + 1];
    }
  }

  /** The head of an ordered list may precede each of its entries. */
  lemma HeadFirst(s: seq<Shoutout>, k: int, d: Direction)
    requires SortedBy(s, d) && 0 <= k < |s|
    ensures InOrder(s[0], s[k], d)
  {
    if k > 0 {
      assert InOrder(s[0], s[k], d);
    }
  }

  /** Removing a common head leaves the groups equal. */
  lemma SameTailGroups(a: seq<Shoutout>, b: seq<Shoutout>)
    requires a != [] && b != [] && a[0] == b[0]
    requires forall t :: CreatedAt(a, t) == CreatedAt(b, t)
    ensures forall t :: CreatedAt(a[1..], t) == CreatedAt(b[1..], t)
  {
    forall t ensures CreatedAt(a[1..], t) == CreatedAt(b[1..], t) {
      var ga, gb := CreatedAt(a, t), CreatedAt(b, t);
      assert ga == gb;
      if a[0].createdAt == t {
        assert ga[1..] == CreatedAt(a[1..], t) && gb[1..] == CreatedAt(b[1..], t);
      } else {
        assert ga == CreatedAt(a[1..], t) && gb == CreatedAt(b[1..], t);
      }
    }
  }

  /** A list's head belongs to its own timestamp group. */
  lemma HeadInGroup(s: seq<Shoutout>)
    ensures s != [] ==> CreatedAt(s, s[0].createdAt) != []
  {
  }

  /** An entry of `s` created at `t`, when there is one. */
  lemma {:induction false} GroupMember(s: seq<Shoutout>, t: int) returns (k: int)
    requires CreatedAt(s, t) != []
    ensures 0 <= k < |s| && s[k].createdAt == t
  {
    if s[0].createdAt == t {
      k := 0;
    } else {
      k := GroupMember(s[1..], t);
      k := k + 1;
    }
  }
}
