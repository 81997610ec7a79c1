/**
 * The feed store of src/hooks/use-shoutouts.ts: the session's list of
 * shoutouts and its `initialized` flag, kept in step with local storage.
 *
 * `Date.now()` is the `now` parameter of each operation and
 * `crypto.randomUUID()` is the `id` parameter of `Add`. The purge timer and the
 * storage-event listener are not modelled; their callbacks are the methods
 * `Purge` and `HandleStorageChange`, which the environment calls.
 */
module FeedStore {
  import opened Types
  import opened Expiry
  import opened Storage

  class ShoutoutStore {
    const storage: LocalStorage
    var shoutouts: seq<Shoutout>
    var initialized: bool
    /** How many "Feed Cleaned" notices the purge has shown. */
    var cleanedNotices: nat

    /** The hook's initial state: an empty list, not yet initialized. */
    constructor (storage: LocalStorage)
      ensures this.storage == storage
      ensures shoutouts == [] && !initialized && cleanedNotices == 0
    {
      this.storage := storage;
      shoutouts := [];
      initialized := false;
      cleanedNotices := 0;
    }

    /**
     * The mount effect: load, keep the live entries, write back only when
     * something was dropped, and mark the store initialized.
     */
    method Initialize(now: int)
      modifies this, storage
      ensures shoutouts == FilterLive(old(storage.Load()), now)
      ensures initialized
      ensures |shoutouts| < |old(storage.Load())| ==> storage.SavedAs(shoutouts)
      ensures |shoutouts| == |old(storage.Load())| ==> shoutouts == old(storage.Load()) && unchanged(storage)
      ensures cleanedNotices == old(cleanedNotices)
    {
      var current := storage.Load();
      var valid := FilterLive(current, now);
      shoutouts := valid;
      if |valid| < |current| {
        storage.Save(valid);
      } else {
        FilterLiveKeepsAll(current, now);
      }
      initialized := true;
    }

    /**
     * `purgeExpiredShoutouts`: recompute the live entries from storage (not from
     * memory); when some expired, save and adopt the shorter list and show a
     * notice, otherwise write nothing and change nothing.
     */
    method Purge(now: int)
      modifies this, storage
      ensures var all := old(storage.Load()); var live := FilterLive(all, now);
        if |live| < |all| then
          shoutouts == live && storage.SavedAs(live) && cleanedNotices == old(cleanedNotices) + 1
        else
          shoutouts == old(shoutouts) && unchanged(storage) && cleanedNotices == old(cleanedNotices)
      ensures initialized == old(initialized)
    {
      var all := storage.Load();
      var valid := FilterLive(all, now);
      if |valid| < |all| {
        storage.Save(valid);
        shoutouts := valid;
        cleanedNotices := cleanedNotices + 1;
      }
    }

    /**
     * `addShoutout`: stamp the submitted fields with a fresh id and the current
     * time, put the new entry first and save the whole list. A refused write
     * does not undo the in-memory change.
     */
    method Add(data: ShoutoutData, id: string, now: int)
      modifies this, storage
      ensures shoutouts == [Stamp(data, id, now)] + old(shoutouts)
      ensures storage.SavedAs(shoutouts)
      ensures initialized == old(initialized) && cleanedNotices == old(cleanedNotices)
    {
      var entry := Stamp(data, id, now);
      var updated := [entry] + shoutouts;
      storage.Save(updated);
      shoutouts := updated;
    }

    /** The "storage" listener: replace the list wholesale by what is stored, unfiltered. */
    method HandleStorageChange()
      modifies this
      ensures shoutouts == storage.Load()
      ensures initialized == old(initialized) && cleanedNotices == old(cleanedNotices)
    {
      shoutouts := storage.Load();
    }
  }

  /** The new entry of `Add` is the list's head; with a fresh id, ids stay distinct. */
  lemma AddKeepsIdsDistinct(xs: seq<Shoutout>, data: ShoutoutData, id: string, now: int)
    requires DistinctIds(xs) && !HasId(xs, id)
    ensures DistinctIds([Stamp(data, id, now)] + xs)
  {
    var r := [Stamp(data, id, now)] + xs;
    forall i, j | 0 <= i < j < |r| ensures r[i].id != r[j].id {
      assert r[j] == xs[j - 1];
      if i > 0 { assert r[i] == xs[i - 1]; }
    }
  }

  /**
   * Start-up with one entry 61+ minutes old and one a minute old keeps only the
   * younger one, in memory and in storage.
   */
  method InitializeDropsStale(now: int) returns (kept: seq<Shoutout>, stored: seq<Shoutout>, ready: bool)
    ensures |kept| == 1 && kept[0].createdAt == now - 60_000
    ensures stored == kept && ready
  {
    var stale := Shoutout("a", "S", "R", "old", None, "heart", now - 3_700_000);
    var recent := Shoutout("b", "S", "R", "new", None, "heart", now - 60_000);
    var storage := new LocalStorage(map[ShoutoutsKey := Stringify([stale, recent])], true);
    var store := new ShoutoutStore(storage);
    store.Initialize(now);
    assert FilterLive([stale, recent], now) == [recent] by {
      assert [stale, recent][1..] == [recent];
    }
    kept, stored, ready := store.shoutouts, storage.Load(), store.initialized;
  }

  /** Start-up on corrupt storage still completes, with an empty list and no write. */
  method InitializeOnCorruptText(raw: string, now: int) returns (kept: seq<Shoutout>, ready: bool, writes: nat)
    ensures kept == [] && ready && writes == 0
  {
    var storage := new LocalStorage(map[ShoutoutsKey := Unparsable(raw)], true);
    var store := new ShoutoutStore(storage);
    store.Initialize(now);
    kept, ready, writes := store.shoutouts, store.initialized, storage.events;
  }

  /** Adding {A, B, "hi", no image, heart} to an empty store gives one entry carrying those fields. */
  method AddToEmpty(id: string, now: int) returns (feed: seq<Shoutout>, stored: seq<Shoutout>)
    ensures |feed| == 1 && stored == feed
    ensures feed[0].sender == "A" && feed[0].recipient == "B" && feed[0].message == "hi"
    ensures feed[0].image == None && feed[0].frame == "heart"
    ensures feed[0].id == id && feed[0].createdAt == now
  {
    var storage := new LocalStorage(map[], true);
    var store := new ShoutoutStore(storage);
    store.Initialize(now);
    store.Add(ShoutoutData("A", "B", "hi", None, "heart"), id, now);
    feed, stored := store.shoutouts, storage.Load();
  }

  /**
   * Whatever is stored, once the feed has mounted at `start`, a second purge
   * at the same instant writes nothing and shows no second notice, as long as
   * writes are accepted.
   */
  method PurgeTwice(entries: seq<Shoutout>, start: int, now: int) returns (firstWrites: nat, secondWrites: nat, notices: nat)
    ensures secondWrites == firstWrites
    ensures notices <= 1
  {
    var storage := new LocalStorage(map[ShoutoutsKey := Stringify(entries)], true);
    var store := new ShoutoutStore(storage);
    store.Initialize(start);
    var mounted := FilterLive(entries, start);
    if |mounted| == |entries| {
      FilterLiveKeepsAll(entries, start);
    }
    assert storage.Load() == mounted;
    store.Purge(now);
    firstWrites := storage.events;
    FilterLiveIdempotent(mounted, now);
    FilterLiveKeepsAll(FilterLive(mounted, now), now);
    store.Purge(now);
    secondWrites, notices := storage.events, store.cleanedNotices;
  }

  /**
   * On storage that refuses writes, stale entries are never removed from
   * storage: after mounting at `start`, every purge drops them again and
   * shows "Feed Cleaned" again.
   */
  method PurgeOnRefusingStorage(entries: seq<Shoutout>, start: int, now: int) returns (writes: nat, notices: nat, kept: seq<Shoutout>)
    requires |FilterLive(entries, now)| < |entries|
    ensures writes == 0 && notices == 2
    ensures kept == FilterLive(entries, now)
  {
    var storage := new LocalStorage(map[ShoutoutsKey := Stringify(entries)], false);
    var store := new ShoutoutStore(storage);
    store.Initialize(start);
    store.Purge(now);
    store.Purge(now);
    writes, notices, kept := storage.events, store.cleanedNotices, store.shoutouts;
  }

  /**
   * Two tabs share one storage. Tab A adds, then tab B (which has not reloaded)
   * adds: B's save overwrites A's entry, and A's listener then adopts B's list,
   * so A's own entry is gone from both (last write wins, no merge).
   */
  method LastWriteWins(x: ShoutoutData, y: ShoutoutData, now: int) returns (inA: seq<Shoutout>, inB: seq<Shoutout>, stored: seq<Shoutout>)
    ensures inA == inB == stored
    ensures |stored| == 1 && stored[0] == Stamp(y, "y", now)
  {
    var storage := new LocalStorage(map[], true);
    var a := new ShoutoutStore(storage);
    var b := new ShoutoutStore(storage);
    a.Initialize(now);
    b.Initialize(now);
    a.Add(x, "x", now);
    b.Add(y, "y", now);
    a.HandleStorageChange();
    inA, inB, stored := a.shoutouts, b.shoutouts, storage.Load();
  }
}
