/** A lifetime from the request to the expiry test: rounding, packing, reading back, comparing with the clock. */
module Lifetime {
  import opened Bytes
  import opened Bits
  import opened DayField

  const MIN_SEC: nat := 60
  const DAY_SEC: nat := 86400

  /** A normalized request: leave the lifetime as it is, or set it (to 0 days for none). */
  datatype Request = Keep | Set(ttl: Ttl)

  /** Rounding to the nearest whole number, halves to the even one. */
  function Round(x: real): int {
    var f := x.Floor;
    var d := x - f as real;
    if d < 0.5 || (d == 0.5 && f % 2 == 0) then f else f + 1
  }

  /** The smallest number of units that covers `a`. */
  function Cover(a: nat, unit: nat): (n: nat)
    requires unit > 0
    ensures n * unit >= a && (a > 0 ==> n > 0 && (n - 1) * unit < a)
  {
    CoverFits(a, unit);
    if a % unit == 0 then a / unit else a / unit + 1
  }

  lemma CoverFits(a: nat, unit: nat)
    requires unit > 0
    ensures a / unit >= 0 && a == a / unit * unit + a % unit
    ensures (a / unit + 1) * unit == a / unit * unit + unit && (a / unit - 1) * unit == a / unit * unit - unit
  {
  }

  /** conv_ttl on a number of seconds: under a day whole minutes, from a day on whole days, always rounded up. */
  function ConvTtl(secs: real): Request {
    if secs < 0.0 then Keep
    else if secs == 0.0 then Set(Days(0))
    else
      var s := if Round(secs) >= 1 then Round(secs) else 1;
      if s < DAY_SEC then Set(Minutes(Min(Cover(s, MIN_SEC), MAX_TTL_MINS)))
      else Set(Days(Min(Cover(s, DAY_SEC), MAX_TTL_DAYS)))
  }

  function Seconds(ttl: Ttl): real { (Mins(ttl) * MIN_SEC) as real }

  lemma RoundWhole(n: nat)
    ensures Round(n as real) == n
  {
  }

  lemma CoverWhole(n: nat, unit: nat)
    requires unit > 0
    ensures Cover(n * unit, unit) == n
  {
    ModIs(n * unit, unit, n, 0);
  }

  /** A positive request never becomes "no lifetime", and stays within what a row can store. */
  lemma PositiveStays(secs: real)
    requires secs > 0.0
    ensures ConvTtl(secs).Set? && 0 < Mins(ConvTtl(secs).ttl) <= MAX_TTL_DAYS * MIN_OF_DAY
    ensures ConvTtl(secs).ttl.Minutes? ==> ConvTtl(secs).ttl.n <= MIN_OF_DAY
  {
  }

  /** Normalizing a normalized lifetime changes nothing; a day written as a fraction becomes one day. */
  lemma ConvIdempotent(secs: real)
    requires secs > 0.0
    ensures var ttl := ConvTtl(secs).ttl;
      ConvTtl(Seconds(ttl)) == Set(if ttl == Minutes(MIN_OF_DAY) then Days(1) else ttl)
  {
    PositiveStays(secs);
    var ttl := ConvTtl(secs).ttl;
    RoundWhole(Mins(ttl) * MIN_SEC);
    if ttl.Minutes? {
      CoverWhole(ttl.n, MIN_SEC);
      CoverWhole(1, DAY_SEC);
    } else {
      CoverWhole(ttl.n, DAY_SEC);
      assert Mins(ttl) * MIN_SEC == ttl.n * DAY_SEC;
    }
  }

  /** What a request of any number of seconds becomes: below zero the lifetime stays as it is, zero takes it away,
      under a day it becomes the least number of whole minutes that covers it, and else of whole days, 511 at most. */
  lemma RequestIs(secs: real)
    ensures secs < 0.0 ==> ConvTtl(secs) == Keep
    ensures secs == 0.0 ==> ConvTtl(secs) == Set(Days(0))
    ensures secs > 0.0 ==>
      var s := if Round(secs) >= 1 then Round(secs) else 1;
      ConvTtl(secs).Set? &&
      var ttl := ConvTtl(secs).ttl;
      if s < 86400 then ttl.Minutes? && (ttl.n - 1) * 60 < s <= ttl.n * 60
      else ttl.Days? && ttl.n <= 511 && (ttl.n - 1) * 86400 < s && (s <= ttl.n * 86400 || ttl.n == 511)
  {
    hide Round;
  }

  /** The stamp a write at second `w` gives its record: the minute, or for a day or longer the day. */
  function StampAt(w: nat, t: nat): nat {
    if t >= MIN_OF_DAY then w / DAY_SEC * MIN_OF_DAY else w / MIN_SEC
  }

  /** The expiry test at second `now`, with its half-minute guard band for lifetimes in minutes. */
  predicate Expired(now: nat, r: Stamp) {
    r.ttl > 0 &&
    if r.ttl >= MIN_OF_DAY then now / DAY_SEC * MIN_OF_DAY > r.modified + r.ttl
    else (now / MIN_SEC) as real - 0.5 > (r.modified + r.ttl) as real
  }

  /** What a row written at second `w` with this lifetime remembers. */
  function Remembered(c: nat, w: nat, ttl: Ttl): Stamp
    requires c <= w / DAY_SEC
  {
    StampDay(w, Mins(ttl));
    UnpackDays(PackDays(c, StampAt(w, Mins(ttl)), Mins(ttl)), Mins(ttl) > 0)
  }

  lemma StampDay(w: nat, t: nat)
    ensures StampAt(w, t) / MIN_OF_DAY == w / DAY_SEC
  {
  }

  lemma RemembersLifetime(c: nat, w: nat, ttl: Ttl)
    requires c <= w / DAY_SEC < 0x40_0000 && 0 < Mins(ttl) <= MAX_TTL_DAYS * MIN_OF_DAY
    requires ttl.Minutes? ==> ttl.n <= MIN_OF_DAY
    ensures Remembered(c, w, ttl).modified == StampAt(w, Mins(ttl)) && Remembered(c, w, ttl).ttl == Mins(ttl)
  {
    hide PackDays, UnpackDays;
    StampDay(w, Mins(ttl));
    PackTrip(c, StampAt(w, Mins(ttl)), Mins(ttl));
  }

  /** How late, at most, a lifetime may end: two of the units it is counted in. */
  function Slack(s: nat): nat { if s <= 86340 then 2 * MIN_SEC else 2 * DAY_SEC }

  /** End to end, for every request up to the longest lifetime, rounded to whole seconds but to one at least:
      the record is never reported expired within the time asked for, and always once two more minutes (or days)
      have passed. */
  lemma NeverEarly(c: nat, w: nat, secs: real, now: nat)
    requires c <= w / DAY_SEC < 0x40_0000 && secs > 0.0 && Round(secs) <= MAX_TTL_DAYS * DAY_SEC && w <= now
    ensures ConvTtl(secs).Set?
    ensures var s := if Round(secs) >= 1 then Round(secs) else 1; var r := Remembered(c, w, ConvTtl(secs).ttl);
      && (now <= w + s ==> !Expired(now, r))
      && (now >= w + s + Slack(s) ==> Expired(now, r))
  {
    hide PackDays, UnpackDays, Round;
    PositiveStays(secs);
    var s := if Round(secs) >= 1 then Round(secs) else 1;
    var ttl := ConvTtl(secs).ttl;
    RemembersLifetime(c, w, ttl);
    if Mins(ttl) < MIN_OF_DAY {
      Elapsed(w, s, now, MIN_SEC);
    } else {
      Elapsed(w, s, now, DAY_SEC);
    }
  }

  /** Counting whole units on a clock: covering `s` is enough, and two more units are too much. */
  lemma Elapsed(w: nat, s: nat, now: nat, unit: nat)
    requires unit > 0 && s > 0 && w <= now && (unit == MIN_SEC || unit == DAY_SEC)
    ensures now <= w + s ==> now / unit <= w / unit + Cover(s, unit)
    ensures now >= w + s + 2 * unit ==> now / unit > w / unit + Cover(s, unit)
  {
  }

  /** The row codecs store every lifetime but those that round up to one day as a fraction: from half a second behind
      86340 seconds to half a second before a day, as rounding to whole seconds has it; what they store is what
      pack_days stores, so NeverEarly holds of it. */
  lemma StoredExactlyOutsideGap(c: nat, w: nat, secs: real)
    requires c <= w / DAY_SEC < 0x40_0000 && secs > 0.0
    ensures ConvTtl(secs).Set?
    ensures var ttl := ConvTtl(secs).ttl;
      && StampAt(w, Mins(ttl)) / MIN_OF_DAY >= c
      && InlineDays(c, StampAt(w, Mins(ttl)), ttl)
         == if 86341 <= Round(secs) <= 86399 then None else Some(PackDays(c, StampAt(w, Mins(ttl)), Mins(ttl)))
  {
    hide PackDays, InlineDays, Round;
    var ttl := ConvTtl(secs).ttl;
    StampDay(w, Mins(ttl));
    InlineIsPack(c, StampAt(w, Mins(ttl)), ttl);
  }

  /** In seconds, halves to the even number: 86340.5 still rounds down, 86399.5 rounds up to a day. */
  lemma GapInSeconds(secs: real)
    ensures 86341 <= Round(secs) <= 86399 <==> 86340.5 < secs < 86399.5
  {
  }
}
