/**
 * The records shared by the feed store, the form, the cards and the frame
 * registry: a shoutout as it is stored, the fields a form submits, and a
 * decorative frame.
 */
module Types {

  /** An optional value: `string | null` and `T | undefined` in the program. */
  datatype Option<+T> = None | Some(value: T)

  /** A posted message. `createdAt` is a timestamp in milliseconds. */
  datatype Shoutout = Shoutout(
    id: string,
    sender: string,
    recipient: string,
    message: string,
    image: Option<string>,  // a data URL, or null
    frame: string,          // a frame id, not checked against the registry
    createdAt: int
  )

  /** What a form submits: a shoutout without `id` and `createdAt`. */
  datatype ShoutoutData = ShoutoutData(
    sender: string,
    recipient: string,
    message: string,
    image: Option<string>,
    frame: string
  )

  /** A decorative theme for a card. */
  datatype ShoutoutFrame = ShoutoutFrame(id: string, name: string, className: string)

  /** The entity the store creates from submitted data, a fresh id and the current time. */
  function Stamp(data: ShoutoutData, id: string, now: int): (s: Shoutout)
    ensures s.id == id && s.createdAt == now
    ensures Data(s) == data
  {
    Shoutout(id, data.sender, data.recipient, data.message, data.image, data.frame, now)
  }

  /** The submitted fields of a stored shoutout. */
  function Data(s: Shoutout): ShoutoutData {
    ShoutoutData(s.sender, s.recipient, s.message, s.image, s.frame)
  }

  /** No two entries of `xs` share an id. */
  predicate DistinctIds(xs: seq<Shoutout>) {
    forall i, j :: 0 <= i < j < |xs| ==> xs[i].id != xs[j].id
  }

  /** Some entry of `xs` has id `id`. */
  predicate HasId(xs: seq<Shoutout>, id: string) {
    exists i :: 0 <= i < |xs| && xs[i].id == id
  }
}
