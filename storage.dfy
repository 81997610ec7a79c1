/**
 * The store adapter of src/hooks/use-shoutouts.ts: the whole feed lives as one
 * serialized text under one key of the browser's local storage.
 *
 * JSON text is abstracted: what sits under a key is either the serialization
 * of a list of shoutouts or text that does not parse.
 */
module Storage {
  import opened Types

  /** The one key the feed is stored under. */
  const ShoutoutsKey: string := "ccs-valentine-shoutouts"

  /** Stored text: a serialized list, or anything else (corrupt, or written by other code). */
  datatype Text = Serialized(entries: seq<Shoutout>) | Unparsable(raw: string)

  /** `JSON.stringify` of a list. */
  function Stringify(xs: seq<Shoutout>): Text {
    Serialized(xs)
  }

  /** `JSON.parse`, which fails (throws) on text that is not a serialized list. */
  function Parse(t: Text): (r: Option<seq<Shoutout>>)
    ensures r.None? <==> t.Unparsable?
    ensures r.Some? ==> Stringify(r.value) == t
  {
    match t
    case Serialized(xs) => Some(xs)
    case Unparsable(_) => None
  }

  /** Parsing what was stringified gives the list back. */
  lemma ParseStringify(xs: seq<Shoutout>)
    ensures Parse(Stringify(xs)) == Some(xs)
  {
  }

  /**
   * The browser's local storage for this origin: a map from keys to text,
   * whether it currently accepts writes (a full quota or disabled storage
   * makes `setItem` throw), and the number of "storage" change events
   * dispatched after successful writes.
   */
  class LocalStorage {
    var items: map<string, Text>
    var writable: bool
    var events: nat

    constructor (items: map<string, Text>, writable: bool)
      ensures this.items == items && this.writable == writable && events == 0
    {
      this.items := items;
      this.writable := writable;
      events := 0;
    }

    /**
     * `getShoutoutsFromStorage`: the stored list, or the empty list when the key
     * is absent or its text does not parse. It never fails.
     */
    function Load(): (r: seq<Shoutout>)
      reads this
      ensures ShoutoutsKey !in items ==> r == []
      ensures ShoutoutsKey in items && Parse(items[ShoutoutsKey]).None? ==> r == []
      ensures ShoutoutsKey in items && Parse(items[ShoutoutsKey]).Some? ==> r == Parse(items[ShoutoutsKey]).value
    {
      if ShoutoutsKey in items then
        match Parse(items[ShoutoutsKey])
        case Some(xs) => xs
        case None => []
      else []
    }

    /**
     * The effect of one save of `xs`: when writes are accepted the key holds the
     * serialization of `xs`, every other key is as it was and one change event
     * is dispatched; otherwise nothing changed.
     */
    twostate predicate SavedAs(xs: seq<Shoutout>)
      reads this
    {
      && writable == old(writable)
      && (old(writable) ==> items == old(items)[ShoutoutsKey := Stringify(xs)] && events == old(events) + 1)
      && (!old(writable) ==> items == old(items) && events == old(events))
    }

    /**
     * `saveShoutoutsToStorage`: overwrite the key with the serialized list and
     * signal the change. A refused write is caught and changes nothing.
     */
    method Save(xs: seq<Shoutout>)
      modifies this
      ensures SavedAs(xs)
      ensures old(writable) ==> Load() == xs
      ensures !old(writable) ==> unchanged(this)
    {
      if writable {
        items := items[ShoutoutsKey := Stringify(xs)];
        events := events + 1;
      }
    }

    /** Another program (or a person in developer tools) writes raw text under a key. */
    method SetItem(key: string, text: Text)
      modifies this
      ensures items == old(items)[key := text]
      ensures writable == old(writable) && events == old(events)
    {
      items := items[key := text];
    }
  }
}
