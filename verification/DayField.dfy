/** The 48-bit field that packs creation day, modification stamp and lifetime in one of three layouts.
    Days are counted in whole days; stamps and lifetimes are counted in whole minutes. */
module DayField {
  import opened Bytes
  import opened Bits

  const MIN_OF_DAY: nat := 1440
  const OLD_DAY_MASK := Mask(26, 0)
  const NEW_DAY_MASK := Mask(22, 26)
  const EXP_DELTA_MASK := Mask(13, 26)
  const TTL_MASK := Mask(9, 39)
  const SUB_DAY_BIT := Pow2(22)
  const SUB_DAY_MASK := Mask(22, 0)
  const SUB_DELTA_MASK := Mask(3, 23)
  const MIN_MASK := Mask(11, 26)
  const TTL_MIN_MASK := Mask(11, 37)
  const KEY_FLAG_MASK := Mask(16, 0)
  const MAX_EXP_DELTA: nat := 8191
  const MAX_TTL_DAYS: nat := 511
  const MAX_SUB_DELTA: nat := 7
  const MAX_TTL_MINS: nat := 2047

  /** A lifetime as it is handed around: whole days, or a fraction of a day in whole minutes. */
  datatype Ttl = Days(n: nat) | Minutes(n: nat)

  function Mins(ttl: Ttl): nat {
    if ttl.Days? then ttl.n * MIN_OF_DAY else ttl.n
  }

  /** What a row remembers: the day it was created, the minute it was modified, its lifetime in minutes. */
  datatype Stamp = Stamp(created: nat, modified: nat, ttl: nat)

  /** pack_days, for a stamp at a whole minute and not before the creation day. */
  function PackDays(c: nat, m: nat, t: nat): nat
    requires c <= m / MIN_OF_DAY
  {
    var day := m / MIN_OF_DAY;
    var delta := day - c;
    if t == 0 then
      if delta > 0 then Or(And(c, OLD_DAY_MASK), And(Shl(delta, 26), NEW_DAY_MASK)) else And(c, OLD_DAY_MASK)
    else if t >= MIN_OF_DAY || day > SUB_DAY_MASK then
      var ttl := Min(t / MIN_OF_DAY, MAX_TTL_DAYS);
      var c' := if delta > MAX_EXP_DELTA then day else c;
      Or(Or(And(c', OLD_DAY_MASK), And(Shl(day - c', 26), EXP_DELTA_MASK)), Shl(ttl, 39))
    else
      var ttl := Max(1, Min(t, MAX_TTL_MINS));
      var c' := if delta > MAX_SUB_DELTA then day else c;
      Or(Or(Or(Or(And(c', SUB_DAY_MASK), Shl(day - c', 23)), SUB_DAY_BIT), Shl(m % MIN_OF_DAY, 26)), Shl(ttl, 37))
  }

  /** unpack_days. */
  function UnpackDays(days: nat, expire: bool): Stamp {
    if !expire then
      var c := And(days, OLD_DAY_MASK);
      Stamp(c, (c + Shr(And(days, NEW_DAY_MASK), 26)) * MIN_OF_DAY, 0)
    else if And(days, SUB_DAY_BIT) == 0 then
      var c := And(days, OLD_DAY_MASK);
      Stamp(c, (c + Shr(And(days, EXP_DELTA_MASK), 26)) * MIN_OF_DAY, Shr(And(days, TTL_MASK), 39) * MIN_OF_DAY)
    else
      var c := And(days, SUB_DAY_MASK);
      Stamp(c, (c + Shr(And(days, SUB_DELTA_MASK), 23)) * MIN_OF_DAY + Shr(And(days, MIN_MASK), 26),
            Shr(And(days, TTL_MIN_MASK), 37))
  }

  /** The encoding written out in every row codec. A lifetime of a day or more must be a whole number of days:
      one that comes as a fraction cannot be shifted, and the row is refused. */
  function InlineDays(c: nat, m: nat, ttl: Ttl): Option<nat>
    requires c <= m / MIN_OF_DAY
  {
    var delta := m / MIN_OF_DAY - c;
    if ttl.n == 0 then
      Some(if delta > 0 then Or(And(c, OLD_DAY_MASK), And(Shl(delta, 26), NEW_DAY_MASK)) else And(c, OLD_DAY_MASK))
    else if Mins(ttl) < MIN_OF_DAY then Some(PackDays(c, m, Mins(ttl)))
    else if ttl.Minutes? then None
    else
      var t := Min(ttl.n, MAX_TTL_DAYS);
      if delta > MAX_EXP_DELTA then Some(Or(And(c + delta, OLD_DAY_MASK), Shl(t, 39)))
      else Some(Or(Or(c, And(Shl(delta, 26), EXP_DELTA_MASK)), Shl(t, 39)))
  }

  /** What survives packing: everything but a creation day too far back for the layout, and, without
      a lifetime in minutes, the minute of the day. */
  function Kept(c: nat, m: nat, t: nat): Stamp {
    var day := m / MIN_OF_DAY;
    if t == 0 then Stamp(c, day * MIN_OF_DAY, 0)
    else if t >= MIN_OF_DAY then
      Stamp(if day <= c + MAX_EXP_DELTA then c else day, day * MIN_OF_DAY, Min(t / MIN_OF_DAY, MAX_TTL_DAYS) * MIN_OF_DAY)
    else Stamp(if day <= c + MAX_SUB_DELTA then c else day, m, t)
  }

  /** Dates the field can hold: up to the largest 22-bit day number. */
  predicate Dated(c: nat, m: nat) {
    c <= m / MIN_OF_DAY < 0x40_0000
  }

  lemma PlainIs(c: nat, m: nat)
    requires Dated(c, m)
    ensures PackDays(c, m, 0) == c + (m / MIN_OF_DAY - c) * 0x400_0000
  {
    hide And, Or, Pow2;
    PowerValues();
    var delta := m / MIN_OF_DAY - c;
    PutField(c, 26, 0);
    PutField(delta, 22, 26);
    OrAdds(c, delta, 26);
  }

  lemma DayLayoutIs(c: nat, delta: nat, ttl: nat)
    requires c < 0x40_0000 && delta <= MAX_EXP_DELTA && ttl <= MAX_TTL_DAYS
    ensures And(c, OLD_DAY_MASK) == c
    ensures Or(Or(c, And(Shl(delta, 26), EXP_DELTA_MASK)), Shl(ttl, 39)) == c + delta * 0x400_0000 + ttl * 0x80_0000_0000
  {
    PowerValues();
    PutField(c, 26, 0);
    PutField(delta, 13, 26);
    OrAdds(c, delta, 26);
    OrAdds(c + Shl(delta, 26), ttl, 39);
  }

  lemma MinuteLayoutIs(c: nat, delta: nat, mmin: nat, ttl: nat)
    requires c < 0x40_0000 && delta <= MAX_SUB_DELTA && mmin < MIN_OF_DAY && ttl <= MAX_TTL_MINS
    ensures Or(Or(Or(Or(And(c, SUB_DAY_MASK), Shl(delta, 23)), SUB_DAY_BIT), Shl(mmin, 26)), Shl(ttl, 37))
         == c + 0x40_0000 + delta * 0x80_0000 + mmin * 0x400_0000 + ttl * 0x20_0000_0000
  {
    hide Or, And, Pow2;
    PowerValues();
    PutField(c, 22, 0);
    OrAdds(c, delta, 23);
    OrBitAdds(c, delta, 22);
    OrAdds(c + Pow2(22) + Shl(delta, 23), mmin, 26);
    OrAdds(c + Pow2(22) + Shl(delta, 23) + Shl(mmin, 26), ttl, 37);
  }

  /** Reading a field is division by its place and the remainder by its width. */
  lemma Fields(days: nat)
    ensures And(days, OLD_DAY_MASK) == days % 0x400_0000
    ensures Shr(And(days, NEW_DAY_MASK), 26) == days / 0x400_0000 % 0x40_0000
    ensures Shr(And(days, EXP_DELTA_MASK), 26) == days / 0x400_0000 % 0x2000
    ensures Shr(And(days, TTL_MASK), 39) == days / 0x80_0000_0000 % 0x200
    ensures And(days, SUB_DAY_MASK) == days % 0x40_0000
    ensures Shr(And(days, SUB_DELTA_MASK), 23) == days / 0x80_0000 % 8
    ensures Shr(And(days, MIN_MASK), 26) == days / 0x400_0000 % 0x800
    ensures Shr(And(days, TTL_MIN_MASK), 37) == days / 0x20_0000_0000 % 0x800
    ensures And(days, SUB_DAY_BIT) == 0 <==> days / 0x40_0000 % 2 == 0
  {
    PowerValues();
    GetField(days, 26, 0);
    GetField(days, 22, 26);
    GetField(days, 13, 26);
    GetField(days, 9, 39);
    GetField(days, 22, 0);
    GetField(days, 3, 23);
    GetField(days, 11, 26);
    GetField(days, 11, 37);
    assert Pow2(1) == 2 && Mask(1, 22) == SUB_DAY_BIT;
    GetField(days, 1, 22);
  }

  /** A sum of fields read field by field. */
  lemma SplitPlain(c: nat, delta: nat)
    requires c < 0x40_0000 && delta < 0x40_0000
    ensures var d := c + delta * 0x400_0000;
      d % 0x400_0000 == c && d / 0x400_0000 % 0x40_0000 == delta && d < 0x1_0000_0000_0000
  {
  }

  lemma SplitDays(c: nat, delta: nat, ttl: nat)
    requires c < 0x40_0000 && delta < 0x2000 && ttl < 0x200
    ensures var d := c + delta * 0x400_0000 + ttl * 0x80_0000_0000;
      && d % 0x400_0000 == c && d / 0x400_0000 % 0x2000 == delta && d / 0x80_0000_0000 % 0x200 == ttl
      && d / 0x40_0000 % 2 == 0 && d < 0x1_0000_0000_0000
  {
    FieldIs(0, c, delta + ttl * 0x2000, 1, 0x400_0000);
    FieldIs(c, delta, ttl, 0x400_0000, 0x2000);
    FieldIs(c + delta * 0x400_0000, ttl, 0, 0x80_0000_0000, 0x200);
    FieldIs(c, 0, delta * 8 + ttl * 0x1_0000, 0x40_0000, 2);
  }

  lemma SplitMinutes(c: nat, delta: nat, mmin: nat, ttl: nat)
    requires c < 0x40_0000 && delta < 8 && mmin < 0x800 && ttl < 0x800
    ensures var d := c + 0x40_0000 + delta * 0x80_0000 + mmin * 0x400_0000 + ttl * 0x20_0000_0000;
      && d % 0x40_0000 == c && d / 0x80_0000 % 8 == delta && d / 0x400_0000 % 0x800 == mmin
      && d / 0x20_0000_0000 % 0x800 == ttl && d / 0x40_0000 % 2 == 1 && d < 0x1_0000_0000_0000
  {
    var lo := c + 0x40_0000;
    FieldIs(0, c, 1 + delta * 2 + mmin * 0x10 + ttl * 0x8000, 1, 0x40_0000);
    FieldIs(c, 1, delta + mmin * 8 + ttl * 0x4000, 0x40_0000, 2);
    FieldIs(lo, delta, mmin + ttl * 0x800, 0x80_0000, 8);
    FieldIs(lo + delta * 0x80_0000, mmin, ttl, 0x400_0000, 0x800);
    FieldIs(lo + delta * 0x80_0000 + mmin * 0x400_0000, ttl, 0, 0x20_0000_0000, 0x800);
  }

  /** The packed number, field by field, in the layout the lifetime asks for. */
  lemma PackedIs(c: nat, m: nat, t: nat)
    requires Dated(c, m)
    ensures var k := Kept(c, m, t); var delta := m / MIN_OF_DAY - k.created;
      PackDays(c, m, t) ==
        if t == 0 then k.created + delta * 0x400_0000
        else if t >= MIN_OF_DAY then k.created + delta * 0x400_0000 + k.ttl / MIN_OF_DAY * 0x80_0000_0000
        else k.created + 0x40_0000 + delta * 0x80_0000 + m % MIN_OF_DAY * 0x400_0000 + t * 0x20_0000_0000
  {
    hide Or, And, Pow2;
    PowerValues();
    var k := Kept(c, m, t);
    var delta := m / MIN_OF_DAY - k.created;
    if t == 0 {
      PlainIs(c, m);
    } else if t >= MIN_OF_DAY {
      DayLayoutIs(k.created, delta, k.ttl / MIN_OF_DAY);
    } else {
      MinuteLayoutIs(k.created, delta, m % MIN_OF_DAY, t);
    }
  }

  /** Packing and unpacking gives back what the layout keeps, within 48 bits; the layout is never mistaken. */
  lemma PackTrip(c: nat, m: nat, t: nat)
    requires Dated(c, m)
    ensures UnpackDays(PackDays(c, m, t), t > 0) == Kept(c, m, t)
    ensures PackDays(c, m, t) < Pow2(48)
    ensures t > 0 ==> (And(PackDays(c, m, t), SUB_DAY_BIT) == 0 <==> t >= MIN_OF_DAY)
  {
    hide Or, And, PackDays, Pow2;
    PowerValues();
    var k := Kept(c, m, t);
    var delta := m / MIN_OF_DAY - k.created;
    PackedIs(c, m, t);
    Fields(PackDays(c, m, t));
    if t == 0 {
      SplitPlain(k.created, delta);
    } else if t >= MIN_OF_DAY {
      SplitDays(k.created, delta, k.ttl / MIN_OF_DAY);
    } else {
      SplitMinutes(k.created, delta, m % MIN_OF_DAY, t);
    }
  }

  /** The encoding written out in the row codecs is pack_days, except that it refuses one day given as a fraction. */
  lemma InlineIsPack(c: nat, m: nat, ttl: Ttl)
    requires Dated(c, m)
    ensures InlineDays(c, m, ttl)
         == if ttl.Minutes? && ttl.n >= MIN_OF_DAY then None else Some(PackDays(c, m, Mins(ttl)))
  {
    hide Or, And, Pow2;
    PowerValues();
    var delta := m / MIN_OF_DAY - c;
    if ttl.Days? && ttl.n > 0 {
      var t := Min(ttl.n, MAX_TTL_DAYS);
      DayLayoutIs(m / MIN_OF_DAY, 0, t);
      if delta > MAX_EXP_DELTA {
        assert c + delta == m / MIN_OF_DAY;
        AndNothing();
        OrAdds(m / MIN_OF_DAY, 0, 26);
      } else {
        DayLayoutIs(c, delta, t);
      }
    }
  }

  lemma AndNothing()
    ensures And(Shl(0, 26), EXP_DELTA_MASK) == 0 && Shl(0, 26) == 0
  {
  }

  /** Key flags carried above the field change nothing about it and are read back whole. */
  lemma FlagsRideAbove(days: nat, flags: nat, expire: bool)
    requires days < Pow2(48) && flags < Pow2(16)
    ensures var full := Or(days, Shl(And(flags, KEY_FLAG_MASK), 48));
      UnpackDays(full, expire) == UnpackDays(days, expire) && And(Shr(full, 48), KEY_FLAG_MASK) == flags
  {
    hide Or, And, Pow2;
    PowerValues();
    var full := Or(days, Shl(And(flags, KEY_FLAG_MASK), 48));
    PutField(flags, 16, 0);
    OrAdds(days, flags, 48);
    GetField(Shr(full, 48), 16, 0);
    Fields(days);
    Fields(full);
    RideAbove(days, flags);
  }

  lemma RideAbove(days: nat, flags: nat)
    requires days < 0x1_0000_0000_0000 && flags < 0x1_0000
    ensures var full := days + flags * 0x1_0000_0000_0000;
      && full % 0x400_0000 == days % 0x400_0000 && full % 0x40_0000 == days % 0x40_0000
      && full / 0x400_0000 % 0x40_0000 == days / 0x400_0000 % 0x40_0000
      && full / 0x400_0000 % 0x2000 == days / 0x400_0000 % 0x2000
      && full / 0x400_0000 % 0x800 == days / 0x400_0000 % 0x800
      && full / 0x80_0000_0000 % 0x200 == days / 0x80_0000_0000 % 0x200
      && full / 0x80_0000 % 8 == days / 0x80_0000 % 8
      && full / 0x20_0000_0000 % 0x800 == days / 0x20_0000_0000 % 0x800
      && full / 0x40_0000 % 2 == days / 0x40_0000 % 2
      && full / 0x1_0000_0000_0000 == flags
  {
    AboveKeeps(days, flags * 0x40_0000, 1, 0x400_0000);
    AboveKeeps(days, flags * 0x400_0000, 1, 0x40_0000);
    AboveKeeps(days, flags, 0x400_0000, 0x40_0000);
    AboveKeeps(days, flags * 0x200, 0x400_0000, 0x2000);
    AboveKeeps(days, flags * 0x800, 0x400_0000, 0x800);
    AboveKeeps(days, flags, 0x80_0000_0000, 0x200);
    AboveKeeps(days, flags * 0x40_0000, 0x80_0000, 8);
    AboveKeeps(days, flags, 0x20_0000_0000, 0x800);
    AboveKeeps(days, flags * 0x200_0000, 0x40_0000, 2);
    ModIs(days + flags * 0x1_0000_0000_0000, 0x1_0000_0000_0000, flags, days);
  }

  /** How far back a creation day may lie and still be remembered: without a lifetime as far as the field reaches, with
      one in days 8191 days, with one in minutes 7; a lifetime in days is remembered up to 511. */
  lemma CreationKept(c: nat, m: nat, t: nat)
    requires Dated(c, m)
    ensures var r := UnpackDays(PackDays(c, m, t), t > 0); var back := m / 1440 - c;
      && (t == 0 || back <= 7 || (t >= 1440 && back <= 8191) ==> r.created == c)
      && (t >= 1440 ==> r.ttl == (if t / 1440 <= 511 then t / 1440 else 511) * 1440)
      && (0 < t < 1440 ==> r.ttl == t && r.modified == m)
      && ((t >= 1440 && back > 8191) || (0 < t < 1440 && back > 7) ==> r.created == m / 1440)
  {
    hide PackDays, UnpackDays;
    PackTrip(c, m, t);
  }
}
