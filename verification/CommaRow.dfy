/** KEY rows as comma-separated text, in their two later layouts, and their round trip for every key. */
module CommaRow {
  import opened Bytes
  import opened Bits
  import opened DayField

  const KF_GROUP: nat := 0x04
  const KF_EXPIRE: nat := 0x80
  const COMMA: char := ','

  // ---- decimal numbers ----

  function Digit(d: nat): char
    requires d < 10
  {
    (48 + d) as char
  }

  predicate IsDigit(c: char) { '0' <= c <= '9' }

  function Dec(n: nat): (s: string)
    ensures |s| > 0 && forall i :: 0 <= i < |s| ==> IsDigit(s[i])
  {
    if n < 10 then [Digit(n)] else Dec(n / 10) + [Digit(n % 10)]
  }

  /** An unsigned decimal number, or nothing. */
  function Parse(s: string): Option<nat> {
    if s == "" || !IsDigit(s[|s| - 1]) then None
    else
      var d := s[|s| - 1] as nat - 48;
      if |s| == 1 then Some(d)
      else
        match Parse(s[..|s| - 1])
        case None => None
        case Some(n) => Some(10 * n + d)
  }

  lemma {:induction false} ParseDec(n: nat)
    ensures Parse(Dec(n)) == Some(n)
  {
    if n >= 10 {
      ParseDec(n / 10);
      assert Dec(n)[..|Dec(n)| - 1] == Dec(n / 10);
    }
  }

  // ---- splitting and joining ----

  function Split(s: string): (fields: seq<string>)
    ensures |fields| >= 1
  {
    if s == "" then [""]
    else if s[0] == COMMA then [""] + Split(s[1..])
    else [[s[0]] + Split(s[1..])[0]] + Split(s[1..])[1..]
  }

  function Join(fields: seq<string>): string
    requires |fields| >= 1
  {
    if |fields| == 1 then fields[0] else fields[0] + [COMMA] + Join(fields[1..])
  }

  lemma {:induction false} JoinSplit(s: string)
    ensures Join(Split(s)) == s
  {
    if s != "" {
      JoinSplit(s[1..]);
      var rest := Split(s[1..]);
      assert s == [s[0]] + s[1..];
      if s[0] == COMMA {
        assert Split(s)[1..] == rest;
      } else {
        assert Split(s)[1..] == rest[1..];
      }
    }
  }

  predicate Plain(s: string) {
    forall i :: 0 <= i < |s| ==> s[i] != COMMA
  }

  lemma {:induction false} SplitPlain(s: string)
    requires Plain(s)
    ensures Split(s) == [s]
  {
    if s != "" {
      SplitPlain(s[1..]);
      assert s == [s[0]] + s[1..];
    }
  }

  /** A field without a comma behind a comma is one more field, whatever stands before. */
  lemma {:induction false} SplitOneMore(s: string, d: string)
    requires Plain(d)
    ensures Split(s + [COMMA] + d) == Split(s) + [d]
  {
    var t := s + [COMMA] + d;
    if s == "" {
      assert t[1..] == d;
      SplitPlain(d);
    } else {
      assert t[1..] == s[1..] + [COMMA] + d;
      SplitOneMore(s[1..], d);
      assert t[0] == s[0];
    }
  }

  /** A key and a list of numbers behind it. */
  function Line(key: string, nums: seq<nat>): string
  {
    if nums == [] then key else Line(key, nums[..|nums| - 1]) + [COMMA] + Dec(nums[|nums| - 1])
  }

  function Decs(nums: seq<nat>): (r: seq<string>)
    ensures |r| == |nums| && forall i :: 0 <= i < |nums| ==> r[i] == Dec(nums[i])
  {
    seq(|nums|, i requires 0 <= i < |nums| => Dec(nums[i]))
  }

  lemma {:induction false} SplitLine(key: string, nums: seq<nat>)
    ensures Split(Line(key, nums)) == Split(key) + Decs(nums)
  {
    if nums != [] {
      var init := nums[..|nums| - 1];
      SplitLine(key, init);
      SplitOneMore(Line(key, init), Dec(nums[|nums| - 1]));
      assert Decs(nums) == Decs(init) + [Dec(nums[|nums| - 1])];
      assert Split(key) + Decs(nums) == Split(key) + Decs(init) + [Dec(nums[|nums| - 1])];
    }
  }

  // ---- padding ----

  predicate IsSpace(c: char) {
    c == ' ' || c == '\t' || c == '\n' || c == '\r' || c == (11 as char) || c == (12 as char)
  }

  function RStrip(s: string): string {
    if s != "" && IsSpace(s[|s| - 1]) then RStrip(s[..|s| - 1]) else s
  }

  lemma {:induction false} StripsPadding(s: string, pad: string)
    requires s != "" && !IsSpace(s[|s| - 1]) && forall i :: 0 <= i < |pad| ==> IsSpace(pad[i])
    ensures RStrip(s + pad) == s
  {
    if pad == "" {
      assert s + pad == s;
    } else {
      var init := pad[..|pad| - 1];
      assert (s + pad)[..|s + pad| - 1] == s + init;
      StripsPadding(s, init);
    }
  }

  // ---- rows ----

  /** The fields of a row, times counted as in the day field. */
  datatype KeyRow = KeyRow(key: string, fileId: nat, offset: nat, rowSize: nat, valSize: nat, ver: nat,
                           created: nat, modified: nat, ttl: Ttl, flags: nat)

  /** What reading a row yields. */
  datatype Loaded = Loaded(key: string, fileId: nat, offset: nat, rowSize: nat, valSize: nat, ver: nat,
                           stamp: Stamp, flags: nat)

  /** The numbers in the last `k` fields, in order. */
  function Numbers(fields: seq<string>, k: nat): Option<seq<nat>>
  {
    if k == 0 then Some([])
    else if |fields| == 0 then None
    else
      match Numbers(fields[..|fields| - 1], k - 1)
      case None => None
      case Some(init) =>
        match Parse(fields[|fields| - 1])
        case None => None
        case Some(n) => Some(init + [n])
  }

  lemma {:induction false} NumbersOf(front: seq<string>, nums: seq<nat>)
    ensures Numbers(front + Decs(nums), |nums|) == Some(nums)
  {
    var fields := front + Decs(nums);
    if nums != [] {
      var init, last := nums[..|nums| - 1], nums[|nums| - 1];
      assert fields[..|fields| - 1] == front + Decs(init);
      NumbersOf(front, init);
      ParseDec(last);
      assert nums == init + [last];
    }
  }

  /** The key in front of `k` numbers: commas it held are put back. */
  function KeyOf(fields: seq<string>, k: nat): string
    requires |fields| >= 1
  {
    if |fields| > k + 1 then Join(fields[..|fields| - k]) else fields[0]
  }

  /** Taking a row's text apart: its key and its last `k` numbers. */
  function Fields(data: string, k: nat): Option<(string, seq<nat>)> {
    var fields := Split(RStrip(data));
    match Numbers(fields, k)
    case None => None
    case Some(nums) => Some((KeyOf(fields, k), nums))
  }

  lemma LineEnds(key: string, nums: seq<nat>)
    requires nums != []
    ensures Line(key, nums) != "" && !IsSpace(Line(key, nums)[|Line(key, nums)| - 1])
  {
    var d := Dec(nums[|nums| - 1]);
    assert Line(key, nums)[|Line(key, nums)| - 1] == d[|d| - 1];
  }

  /** Whatever commas the key holds, even if it is empty, and however the row is padded. */
  lemma FieldsOf(key: string, nums: seq<nat>, pad: string)
    requires nums != [] && forall i :: 0 <= i < |pad| ==> IsSpace(pad[i])
    ensures Fields(Line(key, nums) + pad, |nums|) == Some((key, nums))
  {
    hide Split, Line, RStrip, Join, Numbers;
    LineEnds(key, nums);
    StripsPadding(Line(key, nums), pad);
    SplitLine(key, nums);
    NumbersOf(Split(key), nums);
    JoinSplit(key);
    var fields := Split(key) + Decs(nums);
    assert fields[..|fields| - |nums|] == Split(key);
    if |Split(key)| == 1 {
      JoinOne(Split(key));
    }
  }

  lemma JoinOne(fields: seq<string>)
    requires |fields| == 1
    ensures Join(fields) == fields[0]
  {
  }

  // ---- the two layouts ----

  /** dumps_v2: eight fields, the key flags in one of their own. */
  function DumpsV2(r: KeyRow): Option<string>
    requires r.created <= r.modified / MIN_OF_DAY
  {
    match InlineDays(r.created, r.modified, r.ttl)
    case None => None
    case Some(days) => Some(Line(r.key, [r.fileId, r.offset, r.rowSize, r.valSize, r.ver, days, r.flags]))
  }

  function LoadsV2(data: string): Option<Loaded> {
    match Fields(data, 7)
    case None => None
    case Some((key, f)) =>
      if |f| != 7 then None
      else Some(Loaded(key, f[0], f[1], f[2], f[3], f[4], UnpackDays(f[5], HasExpire(f[6])), f[6]))
  }

  /** dumps_v1: seven fields, the key flags above the days. */
  function DumpsV1(r: KeyRow): Option<string>
    requires r.created <= r.modified / MIN_OF_DAY
  {
    match InlineDays(r.created, r.modified, r.ttl)
    case None => None
    case Some(days) =>
      Some(Line(r.key, [r.fileId, r.offset, r.rowSize, r.valSize, r.ver, Or(days, Shl(And(r.flags, KEY_FLAG_MASK), 48))]))
  }

  function LoadsV1(data: string): Option<Loaded> {
    match Fields(data, 6)
    case None => None
    case Some((key, f)) =>
      if |f| != 6 then None
      else
        var flags := Or(And(Shr(f[5], 48), KEY_FLAG_MASK), if f[2] == 0 && f[0] == 0x10 then KF_GROUP else 0);
        Some(Loaded(key, f[0], f[1], f[2], f[3], f[4], UnpackDays(f[5], HasExpire(flags)), flags))
  }

  predicate HasExpire(flags: nat) { And(flags, KF_EXPIRE) != 0 }

  /** A row as write_key makes it: the expiry flag follows the lifetime, flags fit their 16 bits. */
  ghost predicate RowOk(r: KeyRow) {
    && Dated(r.created, r.modified) && r.flags < 0x1_0000
    && (HasExpire(r.flags) <==> Mins(r.ttl) > 0)
    && !(r.ttl.Minutes? && r.ttl.n >= MIN_OF_DAY)
  }

  function Back(r: KeyRow): Loaded {
    Loaded(r.key, r.fileId, r.offset, r.rowSize, r.valSize, r.ver, Kept(r.created, r.modified, Mins(r.ttl)), r.flags)
  }

  lemma RoundTripV2(r: KeyRow, pad: string)
    requires RowOk(r) && forall i :: 0 <= i < |pad| ==> IsSpace(pad[i])
    ensures DumpsV2(r).Some? && LoadsV2(DumpsV2(r).value + pad) == Some(Back(r))
  {
    hide Line, Fields, InlineDays, UnpackDays, PackDays, And, Or, Kept;
    InlineIsPack(r.created, r.modified, r.ttl);
    var days := PackDays(r.created, r.modified, Mins(r.ttl));
    PackTrip(r.created, r.modified, Mins(r.ttl));
    FieldsOf(r.key, [r.fileId, r.offset, r.rowSize, r.valSize, r.ver, days, r.flags], pad);
  }

  /** A row that holds a group: no bytes, and the type id of groups. */
  predicate GroupRow(r: KeyRow) { r.rowSize == 0 && r.fileId == 0x10 }

  /** The flags the older layout hands back: it works out the group flag from the row itself. */
  function FlagsV1(r: KeyRow): nat {
    if GroupRow(r) then Or(r.flags, KF_GROUP) else r.flags
  }

  /** A row comes back but for its group flag, so it comes back as it was exactly when the flag was set if it is
      a group row. */
  lemma RoundTripV1(r: KeyRow, pad: string)
    requires RowOk(r) && forall i :: 0 <= i < |pad| ==> IsSpace(pad[i])
    ensures DumpsV1(r).Some?
    ensures LoadsV1(DumpsV1(r).value + pad) == Some(Back(r.(flags := FlagsV1(r))))
    ensures LoadsV1(DumpsV1(r).value + pad) == Some(Back(r)) <==> (GroupRow(r) ==> And(r.flags, KF_GROUP) != 0)
  {
    hide Line, Fields, InlineDays, UnpackDays, PackDays, And, Or, Kept, Pow2, Shl, Shr;
    InlineIsPack(r.created, r.modified, r.ttl);
    PowerValues();
    var days := PackDays(r.created, r.modified, Mins(r.ttl));
    PackTrip(r.created, r.modified, Mins(r.ttl));
    FlagsRideAbove(days, r.flags, HasExpire(r.flags));
    GroupAgain(r.flags);
    ExpireStays(r.flags);
    OrZero(r.flags);
    var full := Or(days, Shl(And(r.flags, KEY_FLAG_MASK), 48));
    FieldsOf(r.key, [r.fileId, r.offset, r.rowSize, r.valSize, r.ver, full], pad);
  }

  /** Setting a flag changes nothing exactly when it was set. */
  lemma GroupAgain(flags: nat)
    ensures Or(flags, KF_GROUP) == flags <==> And(flags, KF_GROUP) != 0
  {
    var a := flags / 2;
    var b := a / 2;
    OrZero(b / 2);
    assert Or(b, 1) == b <==> And(b, 1) != 0;
    assert Or(a, 2) == 2 * Or(b, 1) + a % 2;
    assert And(a, 2) == 2 * And(b, 1);
  }

  /** The group flag and the expiry flag are different bits. */
  lemma ExpireStays(flags: nat)
    ensures HasExpire(Or(flags, KF_GROUP)) == HasExpire(flags)
  {
    var a := flags / 2;
    var b := a / 2;
    OrZero(b / 2);
    assert Or(b, 1) == 2 * (b / 2) + 1;
    assert Or(a, 2) == 2 * Or(b, 1) + a % 2;
    assert Or(flags, 4) == 2 * Or(a, 2) + flags % 2;
    AndHalves(flags, 64);
    AndHalves(a, 32);
    AndHalves(b, 16);
    AndHalves(Or(flags, 4), 64);
    AndHalves(Or(a, 2), 32);
    AndHalves(Or(b, 1), 16);
  }

  lemma AndHalves(x: nat, y: nat)
    ensures And(x, 2 * y) == 2 * And(x / 2, y)
  {
    Double(y);
  }

  /** A group row whose flags do not say so: written in the older layout it comes back with the group flag set. */
  lemma GroupFlagAppears()
    ensures var r := KeyRow("g", 0x10, 0, 0, 0, 0, 0, 0, Days(0), 0);
      && RowOk(r) && DumpsV1(r).Some?
      && LoadsV1(DumpsV1(r).value) == Some(Back(r.(flags := 4)))
      && LoadsV1(DumpsV1(r).value) != Some(Back(r))
  {
    hide LoadsV1, DumpsV1, Back;
    var r := KeyRow("g", 0x10, 0, 0, 0, 0, 0, 0, Days(0), 0);
    RoundTripV1(r, "");
    assert DumpsV1(r).value + "" == DumpsV1(r).value;
  }

  // ---- the text of a row ----

  lemma OneMore(key: string, nums: seq<nat>, n: nat)
    ensures Line(key, nums + [n]) == Line(key, nums) + "," + Dec(n)
  {
    assert (nums + [n])[..|nums|] == nums;
  }

  lemma LineOf6(key: string, a: nat, b: nat, c: nat, d: nat, e: nat, f: nat)
    ensures Line(key, [a, b, c, d, e, f])
         == key + "," + Dec(a) + "," + Dec(b) + "," + Dec(c) + "," + Dec(d) + "," + Dec(e) + "," + Dec(f)
  {
    hide Line, Dec;
    NoNumbers(key);
    OneMore(key, [], a);
    OneMore(key, [a], b);
    OneMore(key, [a, b], c);
    OneMore(key, [a, b, c], d);
    OneMore(key, [a, b, c, d], e);
    OneMore(key, [a, b, c, d, e], f);
    assert [] + [a] == [a] && [a] + [b] == [a, b] && [a, b] + [c] == [a, b, c] && [a, b, c] + [d] == [a, b, c, d];
    assert [a, b, c, d] + [e] == [a, b, c, d, e] && [a, b, c, d, e] + [f] == [a, b, c, d, e, f];
  }

  lemma NoNumbers(key: string)
    ensures Line(key, []) == key
  {
  }

  /** The older text: key, file, offset, length of the extent, length of the value, version, and one number that is
      the days plus the flags above bit 48. */
  lemma TextV1(r: KeyRow)
    requires RowOk(r)
    ensures var days := PackDays(r.created, r.modified, Mins(r.ttl));
      DumpsV1(r) == Some(r.key + "," + Dec(r.fileId) + "," + Dec(r.offset) + "," + Dec(r.rowSize) + "," + Dec(r.valSize)
                         + "," + Dec(r.ver) + "," + Dec(days + r.flags * 0x1_0000_0000_0000))
  {
    hide Line, Dec, InlineDays, PackDays, And, Or, Pow2, Shr;
    InlineIsPack(r.created, r.modified, r.ttl);
    PowerValues();
    var days := PackDays(r.created, r.modified, Mins(r.ttl));
    PackTrip(r.created, r.modified, Mins(r.ttl));
    FlagsWhole(r.flags);
    OrAdds(days, r.flags, 48);
    LineOf6(r.key, r.fileId, r.offset, r.rowSize, r.valSize, r.ver, days + r.flags * 0x1_0000_0000_0000);
  }

  lemma FlagsWhole(flags: nat)
    requires flags < 0x1_0000
    ensures And(flags, KEY_FLAG_MASK) == flags
  {
    hide And, Pow2;
    PowerValues();
    PutField(flags, 16, 0);
  }

  /** The newer text: the days and the flags in fields of their own. */
  lemma TextV2(r: KeyRow)
    requires RowOk(r)
    ensures var days := PackDays(r.created, r.modified, Mins(r.ttl));
      DumpsV2(r) == Some(r.key + "," + Dec(r.fileId) + "," + Dec(r.offset) + "," + Dec(r.rowSize) + "," + Dec(r.valSize)
                         + "," + Dec(r.ver) + "," + Dec(days) + "," + Dec(r.flags))
  {
    hide Line, Dec, InlineDays, PackDays;
    InlineIsPack(r.created, r.modified, r.ttl);
    var days := PackDays(r.created, r.modified, Mins(r.ttl));
    var nums := [r.fileId, r.offset, r.rowSize, r.valSize, r.ver, days];
    LineOf6(r.key, r.fileId, r.offset, r.rowSize, r.valSize, r.ver, days);
    OneMore(r.key, nums, r.flags);
    assert nums + [r.flags] == [r.fileId, r.offset, r.rowSize, r.valSize, r.ver, days, r.flags];
  }

  /** Numbers are written in decimal, the highest digit first. */
  lemma DecimalText()
    ensures Dec(0) == "0" && Dec(7) == "7" && Dec(10) == "10" && Dec(2048) == "2048"
  {
    assert Dec(2) == "2" && Dec(20) == "20" && Dec(204) == "204";
  }

  /** The group flag is bit 2, the expiry flag bit 7. */
  lemma FlagBits(flags: nat)
    ensures And(flags, KF_GROUP) != 0 <==> flags / 4 % 2 == 1
    ensures HasExpire(flags) <==> flags / 128 % 2 == 1
  {
    hide And;
    AndHalves(flags, 2);
    AndHalves(flags / 2, 1);
    AndHalves(flags, 64);
    AndHalves(flags / 2, 32);
    AndHalves(flags / 4, 16);
    AndHalves(flags / 8, 8);
    AndHalves(flags / 16, 4);
    AndHalves(flags / 32, 2);
    AndHalves(flags / 64, 1);
    LowestBit(flags / 4);
    LowestBit(flags / 128);
  }

  lemma LowestBit(x: nat)
    ensures And(x, 1) == x % 2
  {
  }
}
