/**
 * The static frame registry and the lookup of a shoutout's frame id in it.
 * A frame id on a shoutout is a soft reference: an id that matches no entry
 * resolves to nothing and the card is drawn without a theme.
 */
module Frames {
  import opened Types

  /** The three frames, in the order the form offers them. */
  const Registry: seq<ShoutoutFrame> := [
    ShoutoutFrame("heart", "Heart", "circuit-heart-frame"),
    ShoutoutFrame("code", "Code", "circuit-heart-frame"),
    ShoutoutFrame("circuit", "Circuit", "circuit-heart-frame")
  ]

  /** No two frames of `fs` share an id. */
  predicate DistinctFrameIds(fs: seq<ShoutoutFrame>) {
    forall i, j :: 0 <= i < j < |fs| ==> fs[i].id != fs[j].id
  }

  /**
   * `fs.find(f => f.id === id)`: the first frame whose id is `id`, or
   * nothing when no frame has that id.
   */
  function Find(fs: seq<ShoutoutFrame>, id: string): (r: Option<ShoutoutFrame>)
    ensures r.None? <==> forall i :: 0 <= i < |fs| ==> fs[i].id != id
    ensures r.Some? ==> exists i :: 0 <= i < |fs| && fs[i] == r.value && r.value.id == id &&
                                    forall j :: 0 <= j < i ==> fs[j].id != id
  {
    if fs == [] then None
    else if fs[0].id == id then Some(fs[0])
    else
      var r := Find(fs[1..], id);
      assert r.Some? ==> exists i :: 0 <= i < |fs[1..]| && fs[1..][i] == r.value && r.value.id == id &&
                                     forall j :: 0 <= j < i ==> fs[1..][j].id != id;
      r
  }

  /** The frame a card receives for a shoutout's `frame` id. */
  function FrameFor(id: string): Option<ShoutoutFrame> {
    Find(Registry, id)
  }

  /** With distinct ids, lookup yields exactly the one frame carrying the id. */
  lemma {:induction false} FindUnique(fs: seq<ShoutoutFrame>, f: ShoutoutFrame)
    requires DistinctFrameIds(fs)
    ensures Find(fs, f.id) == Some(f) <==> f in fs
  {
    if f in fs {
      var k :| 0 <= k < |fs| && fs[k] == f;
      var r := Find(fs, f.id);
      var i :| 0 <= i < |fs| && fs[i] == r.value && r.value.id == f.id &&
               forall j :: 0 <= j < i ==> fs[j].id != f.id;
      assert i == k;
    }
  }

  /** The registry holds exactly heart, code and circuit, in that order, with distinct ids. */
  lemma RegistryShape()
    ensures |Registry| == 3
    ensures Registry[0].id == "heart" && Registry[1].id == "code" && Registry[2].id == "circuit"
    ensures DistinctFrameIds(Registry)
  {
  }

  /** Every registry frame, the form's default "heart" among them, resolves to itself. */
  lemma RegistryResolvesToItself(f: ShoutoutFrame)
    requires f in Registry
    ensures FrameFor(f.id) == Some(f)
  {
    RegistryShape();
    FindUnique(Registry, f);
  }

  /** All three frames draw with the same style class. */
  lemma RegistrySharesClassName(f: ShoutoutFrame)
    requires f in Registry
    ensures f.className == "circuit-heart-frame"
  {
  }

  /** A resolved frame always carries the requested id; an id outside the registry resolves to nothing. */
  lemma {:induction false} FrameForKnownIds(id: string)
    ensures FrameFor(id).Some? <==> id in ["heart", "code", "circuit"]
    ensures FrameFor(id).Some? ==> FrameFor(id).value in Registry && FrameFor(id).value.id == id
  {
    var r := FrameFor(id);
    if r.Some? {
      var i :| 0 <= i < |Registry| && Registry[i] == r.value && r.value.id == id &&
               forall j :: 0 <= j < i ==> Registry[j].id != id;
      assert id == Registry[i].id;
    } else {
      assert Registry[0].id != id && Registry[1].id != id && Registry[2].id != id;
    }
  }
}
