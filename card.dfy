/**
 * The shoutout card of src/components/shoutout-card.tsx: the relative age
 * shown under a message ("3 hours ago", "just now"), the card's style
 * classes, and when the image block is drawn.
 *
 * `new Date().getTime()` is the `now` parameter. The age in seconds is
 * `Math.floor(ms / 1000)`, which for a positive divisor is Dafny's `/`; the
 * comparison `seconds / size > 1` is `seconds > size`, and
 * `Math.floor(seconds / size)` is `seconds / size` once `seconds` is positive.
 */
module Card {
  import opened Types
  import opened Frames

  datatype TimeUnit = Years | Months | Days | Hours | Minutes

  /** The length of a unit in seconds: a 365-day year, a 30-day month. */
  function UnitSeconds(u: TimeUnit): nat {
    match u
    case Years => 31536000
    case Months => 2592000
    case Days => 86400
    case Hours => 3600
    case Minutes => 60
  }

  function UnitLabel(u: TimeUnit): string {
    match u
    case Years => "years"
    case Months => "months"
    case Days => "days"
    case Hours => "hours"
    case Minutes => "minutes"
  }

  /** The units in the order they are tried, largest first. */
  const Units: seq<TimeUnit> := [Years, Months, Days, Hours, Minutes]

  /** A relative age: a count of some unit, or "just now". */
  datatype Age = JustNow | Ago(count: nat, unit: TimeUnit)

  /** Whole seconds elapsed from `timestamp` to `now`, both in milliseconds, rounded down. */
  function ElapsedSeconds(now: int, timestamp: int): (seconds: int)
    ensures 1000 * seconds <= now - timestamp < 1000 * seconds + 1000
  {
    (now - timestamp) / 1000
  }

  /** The position of the first unit of `units` that `seconds` strictly exceeds, or `|units|` when none does. */
  function FitIndex(seconds: int, units: seq<TimeUnit>): (i: nat)
    ensures i <= |units|
    ensures forall j :: 0 <= j < i ==> seconds <= UnitSeconds(units[j])
    ensures i < |units| ==> seconds > UnitSeconds(units[i])
  {
    if units == [] || seconds > UnitSeconds(units[0]) then 0
    else
      var i := FitIndex(seconds, units[1..]);
      assert forall j :: 1 <= j < i + 1 ==> units[j] == units[1..][j - 1];
      i + 1
  }

  /** Try the units of `units` in turn: the first one `seconds` strictly exceeds wins, counted with `floor`. */
  function FirstFit(seconds: int, units: seq<TimeUnit>): (a: Age)
    ensures a.JustNow? <==> FitIndex(seconds, units) == |units|
    ensures a.Ago? ==> a == Ago(seconds / UnitSeconds(units[FitIndex(seconds, units)]), units[FitIndex(seconds, units)])
  {
    var i := FitIndex(seconds, units);
    if i < |units| then Ago(seconds / UnitSeconds(units[i]), units[i]) else JustNow
  }

  /** The bucket of an age in seconds. */
  function Bucket(seconds: int): (a: Age)
    ensures a.Ago? ==> seconds > UnitSeconds(a.unit) && a.count == seconds / UnitSeconds(a.unit)
  {
    FirstFit(seconds, Units)
  }

  /**
   * A unit is reported only when the age exceeds it and every larger unit
   * does not fit; its count is at least one and, below years, at most the
   * number that fits in the next larger unit. At most a minute, and any
   * negative age (a timestamp in the future), is "just now".
   */
  lemma {:induction false} BucketSpec(seconds: int)
    ensures Bucket(seconds).JustNow? <==> seconds <= 60
    ensures Bucket(seconds).Ago? ==> Bucket(seconds).count >= 1
    ensures Bucket(seconds).Ago? ==> Bucket(seconds).count == seconds / UnitSeconds(Bucket(seconds).unit)
    ensures Bucket(seconds).Ago? && Bucket(seconds).unit == Years <==> seconds > 31536000
    ensures Bucket(seconds).Ago? && Bucket(seconds).unit == Months <==> 2592000 < seconds <= 31536000
    ensures Bucket(seconds).Ago? && Bucket(seconds).unit == Days <==> 86400 < seconds <= 2592000
    ensures Bucket(seconds).Ago? && Bucket(seconds).unit == Hours <==> 3600 < seconds <= 86400
    ensures Bucket(seconds).Ago? && Bucket(seconds).unit == Minutes <==> 60 < seconds <= 3600
    ensures Bucket(seconds).Ago? && Bucket(seconds).unit == Months ==> Bucket(seconds).count <= 12
    ensures Bucket(seconds).Ago? && Bucket(seconds).unit == Days ==> Bucket(seconds).count <= 30
    ensures Bucket(seconds).Ago? && Bucket(seconds).unit == Hours ==> Bucket(seconds).count <= 24
    ensures Bucket(seconds).Ago? && Bucket(seconds).unit == Minutes ==> Bucket(seconds).count <= 60
  {
    var i := FitIndex(seconds, Units);
    if i >= 1 { assert seconds <= UnitSeconds(Units[0]); }
    if i >= 2 { assert seconds <= UnitSeconds(Units[1]); }
    if i >= 3 { assert seconds <= UnitSeconds(Units[2]); }
    if i >= 4 { assert seconds <= UnitSeconds(Units[3]); }
    if i >= 5 { assert seconds <= UnitSeconds(Units[4]); }
  }

  /** The decimal numeral of `n`, as `String(n)` writes it. */
  function Decimal(n: nat): (s: string)
    ensures |s| >= 1 && (forall i :: 0 <= i < |s| ==> '0' <= s[i] <= '9')
    ensures n > 0 ==> s[0] != '0'
    ensures n < 10 <==> |s| == 1
  {
    if n < 10 then [Digit(n)] else Decimal(n / 10) + [Digit(n % 10)]
  }

  function Digit(d: nat): (c: char)
    requires d < 10
    ensures '0' <= c <= '9'
    ensures c as int - '0' as int == d
  {
    "0123456789"[d]
  }

  /** The value a numeral denotes. */
  function NumeralValue(s: string): nat
    requires forall i :: 0 <= i < |s| ==> '0' <= s[i] <= '9'
  {
    if s == [] then 0 else 10 * NumeralValue(s[..|s| - 1]) + (s[|s| - 1] as int - '0' as int)
  }

  /** The numeral written for a count denotes that count. */
  lemma {:induction false} DecimalDenotes(n: nat)
    ensures NumeralValue(Decimal(n)) == n
  {
    if n >= 10 {
      NumeralSnoc(Decimal(n / 10), Digit(n % 10));
      DecimalDenotes(n / 10);
    }
  }

  lemma NumeralSnoc(p: string, d: char)
    requires forall i :: 0 <= i < |p| ==> '0' <= p[i] <= '9'
    requires '0' <= d <= '9'
    ensures NumeralValue(p + [d]) == 10 * NumeralValue(p) + (d as int - '0' as int)
  {
    assert (p + [d])[..|p|] == p;
  }

  /** The text shown for an age. */
  function AgeText(a: Age): (r: string)
    ensures r == "just now" <==> a.JustNow?
    ensures a.Ago? ==> |r| > 4 && r[|r| - 4..] == " ago"
    ensures a.Ago? ==> r == Decimal(a.count) + " " + UnitLabel(a.unit) + " ago"
  {
    match a
    case JustNow => "just now"
    case Ago(count, unit) => Decimal(count) + " " + UnitLabel(unit) + " ago"
  }

  /** `timeAgo(timestamp)` at instant `now`. */
  function TimeAgo(now: int, timestamp: int): (r: string)
    ensures r == "just now" <==> now - timestamp < 61_000
    ensures now - timestamp >= 61_000 ==> |r| > 4 && r[|r| - 4..] == " ago"
  {
    var seconds := ElapsedSeconds(now, timestamp);
    BucketSpec(seconds);
    AgeText(Bucket(seconds))
  }

  /** The next larger unit; years have none and map to themselves. */
  function Larger(u: TimeUnit): TimeUnit {
    match u
    case Years => Years
    case Months => Years
    case Days => Months
    case Hours => Days
    case Minutes => Hours
  }

  /**
   * The text names the age: when the elapsed seconds exceed a unit but not
   * the next larger one, the card reads the whole number of that unit, its
   * label and "ago".
   */
  lemma TimeAgoText(now: int, timestamp: int, u: TimeUnit)
    requires UnitSeconds(u) < ElapsedSeconds(now, timestamp)
    requires u == Years || ElapsedSeconds(now, timestamp) <= UnitSeconds(Larger(u))
    ensures TimeAgo(now, timestamp) == Decimal(ElapsedSeconds(now, timestamp) / UnitSeconds(u)) + " " + UnitLabel(u) + " ago"
  {
    var e := ElapsedSeconds(now, timestamp);
    BucketSpec(e);
    assert Bucket(e) == Ago(e / UnitSeconds(u), u);
  }

  /** The boundaries: 60 s is "just now", 61 s is "1 minutes ago", a full hour is "60 minutes ago", one more second "1 hours ago". */
  lemma BucketBoundaries()
    ensures Bucket(60) == JustNow && Bucket(61) == Ago(1, Minutes)
    ensures Bucket(3600) == Ago(60, Minutes) && Bucket(3601) == Ago(1, Hours)
  {
    BucketSpec(60);
    BucketSpec(61);
    BucketSpec(3600);
    BucketSpec(3601);
  }

  /** The same boundaries as text, from millisecond timestamps: up to 60.999 s is "just now". */
  lemma TimeAgoJustNowBoundary(timestamp: int)
    ensures TimeAgo(timestamp + 60_999, timestamp) == "just now"
  {
    TimeAgoAfter(timestamp + 60_999, timestamp, 60);
    BucketBoundaries();
  }

  /** 61 s reads "1 minutes ago". */
  lemma TimeAgoFirstMinute(timestamp: int)
    ensures TimeAgo(timestamp + 61_000, timestamp) == "1 minutes ago"
  {
    TimeAgoAfter(timestamp + 61_000, timestamp, 61);
    BucketBoundaries();
    MinuteText();
  }

  /** A full hour still reads in minutes; one second more reads "1 hours ago". */
  lemma TimeAgoHourBoundary(timestamp: int)
    ensures TimeAgo(timestamp + 3_600_000, timestamp) == "60 minutes ago"
    ensures TimeAgo(timestamp + 3_601_000, timestamp) == "1 hours ago"
  {
    TimeAgoAfter(timestamp + 3_600_000, timestamp, 3600);
    TimeAgoAfter(timestamp + 3_601_000, timestamp, 3601);
    BucketBoundaries();
    HourText();
  }

  lemma TimeAgoAfter(now: int, timestamp: int, seconds: int)
    requires 1000 * seconds <= now - timestamp < 1000 * seconds + 1000
    ensures TimeAgo(now, timestamp) == AgeText(Bucket(seconds))
  {
    var e := ElapsedSeconds(now, timestamp);
    assert e == seconds;
  }

  lemma MinuteText()
    ensures AgeText(Ago(1, Minutes)) == "1 minutes ago"
  {
  }

  lemma HourText()
    ensures AgeText(Ago(60, Minutes)) == "60 minutes ago"
    ensures AgeText(Ago(1, Hours)) == "1 hours ago"
  {
    DecimalSixty();
    assert AgeText(Ago(60, Minutes)) == "60" + " " + "minutes" + " ago";
  }

  lemma DecimalSixty()
    ensures Decimal(1) == "1" && Decimal(60) == "60"
  {
    assert Decimal(60) == Decimal(6) + [Digit(0)];
  }

  /** A timestamp in the future reads "just now". */
  lemma TimeAgoFuture(now: int, timestamp: int)
    requires timestamp > now
    ensures TimeAgo(now, timestamp) == "just now"
  {
    BucketSpec(ElapsedSeconds(now, timestamp));
  }

  /** The base classes of every card. */
  const BaseClasses: string := "overflow-hidden animate-enter"

  /** What a card draws for a shoutout with a resolved frame at instant `now`. */
  datatype CardView = CardView(classes: string, image: Option<string>, message: string, age: string)

  /**
   * `ShoutoutCard`: the frame's class is added to the base classes when a frame
   * is given; the image block appears only for a non-empty image.
   */
  function RenderCard(s: Shoutout, frame: Option<ShoutoutFrame>, now: int): (v: CardView)
    ensures BaseClasses <= v.classes
    ensures v.classes == BaseClasses <==> frame.None? || frame.value.className == ""
    ensures frame.Some? && frame.value.className != "" ==> v.classes == BaseClasses + " " + frame.value.className
    ensures v.image.Some? <==> s.image.Some? && s.image.value != ""
    ensures v.image.Some? ==> v.image == s.image
    ensures v.message == s.message && v.age == TimeAgo(now, s.createdAt)
  {
    var classes := if frame.Some? && frame.value.className != "" then BaseClasses + " " + frame.value.className else BaseClasses;
    var image := if s.image.Some? && s.image.value != "" then s.image else None;
    CardView(classes, image, s.message, TimeAgo(now, s.createdAt))
  }

  /** The props a list passes to a card: the shoutout and the registry frame its id names. */
  datatype CardProps = CardProps(shoutout: Shoutout, frame: Option<ShoutoutFrame>)

  /** `frames.find((f) => f.id === shoutout.frame)`. */
  function PropsFor(s: Shoutout): (p: CardProps)
    ensures p.shoutout == s
    ensures p.frame.Some? <==> s.frame in ["heart", "code", "circuit"]
    ensures p.frame.Some? ==> p.frame.value in Registry && p.frame.value.id == s.frame
  {
    FrameForKnownIds(s.frame);
    CardProps(s, FrameFor(s.frame))
  }

  /** `list.map((shoutout) => <ShoutoutCard shoutout frame={frames.find(...)} />)`: one card per entry, in order. */
  function CardsFor(xs: seq<Shoutout>): (cards: seq<CardProps>)
    ensures |cards| == |xs|
    ensures forall i :: 0 <= i < |xs| ==> cards[i].shoutout == xs[i]
    ensures forall i :: 0 <= i < |xs| ==>
      (cards[i].frame.Some? <==> xs[i].frame in ["heart", "code", "circuit"]) &&
      (cards[i].frame.Some? ==> cards[i].frame.value in Registry && cards[i].frame.value.id == xs[i].frame)
  {
    if xs == [] then [] else [PropsFor(xs[0])] + CardsFor(xs[1..])
  }

  /** A card for a shoutout whose frame id is in the registry carries the shared frame class. */
  lemma {:induction false} RegisteredFrameClass(s: Shoutout, now: int)
    requires s.frame in ["heart", "code", "circuit"]
    ensures RenderCard(s, PropsFor(s).frame, now).classes == BaseClasses + " circuit-heart-frame"
  {
    var frame := PropsFor(s).frame.value;
    RegistrySharesClassName(frame);
    var classes := RenderCard(s, Some(frame), now).classes;
    assert classes == BaseClasses + " " + "circuit-heart-frame";
  }
}
