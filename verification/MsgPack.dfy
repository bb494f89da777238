/** The MessagePack value codec as functions over bytes, and its round trip. */
module MsgPack {
  import opened BigEndian
  import opened Bytes

  /** What the codec carries. Text and floats are opaque bytes; a map lists key, value, key, value, …
      in insertion order, a set its members in iteration order. */
  datatype Value =
    | Nil
    | Bool(on: bool)
    | Int(n: int)
    | Float(bits: seq<byte>)
    | Bin(data: seq<byte>)
    | Str(text: seq<byte>)
    | Arr(items: seq<Value>, tuple: bool)
    | Map(items: seq<Value>)
    | Set(items: seq<Value>, frozen: bool)

  /** What the decoder leaves to the language: equality of keys, text validation, float widening,
      and the members a set constructor draws from a text. */
  datatype Host = Host(eq: (Value, Value) -> bool, utf8: seq<byte> -> bool,
                       widen: seq<byte> -> seq<byte>, chars: seq<byte> -> seq<Value>)

  datatype Error = Truncated | Invalid | BadType

  datatype Result<+T> = Ok(value: T, next: nat) | Err(error: Error)

  const EXT_SET: byte := 123
  const EXT_FROZENSET: byte := 124
  const LIMIT32 := 0x1_0000_0000
  const NEST_LIMIT := 1024

  function Items(v: Value): (items: seq<Value>)
    ensures forall i :: 0 <= i < |items| ==> items[i] < v
  {
    if v.Arr? || v.Map? || v.Set? then v.items else []
  }

  // ---- numbers ----

  /** Two's complement on `k` bytes. */
  function Signed(u: nat, k: nat): int {
    if 2 * u >= Pow256(k) then u - Pow256(k) else u
  }

  // ---- encoding ----

  function Head8(tag: byte, n: nat): seq<byte>
  {
    [tag] + Be(n, 1)
  }

  function Head16(tag: byte, n: nat): seq<byte> {
    [tag] + Be(n, 2)
  }

  function Head32(tag: byte, n: nat): seq<byte> {
    [tag] + Be(n, 4)
  }

  function PackInt(n: int): Option<seq<byte>> {
    if 0 <= n < 0x80 then Some([n as byte])
    else if -0x20 <= n < 0 then Some([(0x100 + n) as byte])
    else if 0x80 <= n <= 0xFF then Some([0xCC] + Be(n, 1))
    else if -0x80 <= n < 0 then Some([0xD0] + Be(0x100 + n, 1))
    else if 0xFF < n <= 0xFFFF then Some([0xCD] + Be(n, 2))
    else if -0x8000 <= n < -0x80 then Some([0xD1] + Be(0x1_0000 + n, 2))
    else if 0xFFFF < n <= 0xFFFF_FFFF then Some([0xCE] + Be(n, 4))
    else if -0x8000_0000 <= n < -0x8000 then Some([0xD2] + Be(0x1_0000_0000 + n, 4))
    else if 0xFFFF_FFFF < n <= 0xFFFF_FFFF_FFFF_FFFF then Some([0xCF] + Be(n, 8))
    else if -0x8000_0000_0000_0000 <= n < -0x8000_0000 then Some([0xD3] + Be(0x1_0000_0000_0000_0000 + n, 8))
    else None
  }

  function BinHead(n: nat): seq<byte> {
    if n <= 0xFF then Head8(0xC4, n) else if n <= 0xFFFF then Head16(0xC5, n) else Head32(0xC6, n)
  }

  function StrHead(n: nat): seq<byte> {
    if n <= 0x1F then [(0xA0 + n) as byte]
    else if n <= 0xFF then Head8(0xD9, n) else if n <= 0xFFFF then Head16(0xDA, n) else Head32(0xDB, n)
  }

  function ArrHead(n: nat): (s: seq<byte>)
    ensures |s| > 0
  {
    if n <= 0xF then [(0x90 + n) as byte] else if n <= 0xFFFF then Head16(0xDC, n) else Head32(0xDD, n)
  }

  function MapHead(n: nat): seq<byte> {
    if n <= 0xF then [(0x80 + n) as byte] else if n <= 0xFFFF then Head16(0xDE, n) else Head32(0xDF, n)
  }

  function ExtHead(n: nat): seq<byte> {
    if n > 0xFFFF then Head32(0xC9, n)
    else if n > 0xFF then Head16(0xC8, n)
    else if n == 16 then [0xD8] else if n == 8 then [0xD7] else if n == 4 then [0xD6]
    else if n == 2 then [0xD5] else if n == 1 then [0xD4] else Head8(0xC7, n)
  }

  /** What stands in front of the packed items of a container. */
  function ItemsHead(v: Value): seq<byte> {
    if v.Map? then MapHead(|v.items| / 2) else ArrHead(|Items(v)|)
  }

  function ItemCount(v: Value): nat {
    if v.Map? then |v.items| / 2 else |Items(v)|
  }

  /** A set is its members as an array, wrapped as an extension. */
  function WrapSet(frozen: bool, payload: seq<byte>): Option<seq<byte>> {
    if |payload| < LIMIT32 then
      Some(ExtHead(|payload|) + [if frozen then EXT_FROZENSET else EXT_SET] + payload)
    else None
  }

  /** The bytes of a value, or nothing when it is out of range, too large or nested too deep. */
  function Pack(v: Value, nest: int): Option<seq<byte>>
    decreases v
  {
    if nest < 0 then None
    else
      match v
      case Nil => Some([0xC0])
      case Bool(on) => Some([if on then 0xC3 else 0xC2])
      case Int(n) => PackInt(n)
      case Float(bits) => Some([0xCB] + bits)
      case Bin(data) => if |data| < LIMIT32 then Some(BinHead(|data|) + data) else None
      case Str(text) => if |text| < LIMIT32 then Some(StrHead(|text|) + text) else None
      case _ =>
        if ItemCount(v) >= LIMIT32 then None
        else
          match PackFrom(v, 0, nest - 1)
          case None => None
          case Some(body) => if v.Set? then WrapSet(v.frozen, ItemsHead(v) + body) else Some(ItemsHead(v) + body)
  }

  /** The items of a container from index `k` on. */
  function PackFrom(v: Value, k: nat, nest: int): Option<seq<byte>>
    requires k <= |Items(v)|
    decreases v, |Items(v)| - k
  {
    if k == |Items(v)| then Some([])
    else
      match Pack(Items(v)[k], nest)
      case None => None
      case Some(head) =>
        match PackFrom(v, k + 1, nest)
        case None => None
        case Some(tail) => Some(head + tail)
  }

  // ---- decoding ----

  /** A slice as the language cuts it: silently shorter at the end of the buffer. */
  function Slice(buf: seq<byte>, at: nat, n: nat): seq<byte> {
    if at >= |buf| then [] else if at + n <= |buf| then buf[at..at + n] else buf[at..]
  }

  predicate Hashable(v: Value)
    decreases v
  {
    match v
    case Arr(items, tuple) => tuple && forall i :: 0 <= i < |items| ==> Hashable(items[i])
    case Map(_) => false
    case Set(_, frozen) => frozen
    case _ => true
  }

  /** The index of the entry with this key, counting by twos. */
  function FindKey(h: Host, flat: seq<Value>, key: Value, k: nat): nat
    requires |flat| % 2 == 0 && k % 2 == 0 && k <= |flat|
    ensures FindKey(h, flat, key, k) % 2 == 0 && k <= FindKey(h, flat, key, k) <= |flat|
    decreases |flat| - k
  {
    if k == |flat| || h.eq(flat[k], key) then k else FindKey(h, flat, key, k + 2)
  }

  /** Storing under a key: an equal key keeps its place and spelling, a new one goes last. */
  function PutPair(h: Host, flat: seq<Value>, key: Value, val: Value): (r: seq<Value>)
    requires |flat| % 2 == 0
    ensures |r| % 2 == 0
  {
    var k := FindKey(h, flat, key, 0);
    if k < |flat| then flat[k + 1 := val] else flat + [key, val]
  }

  /** Collecting members: an equal one is already there. */
  function AddMember(h: Host, items: seq<Value>, v: Value): seq<Value> {
    if exists i :: 0 <= i < |items| && h.eq(items[i], v) then items else items + [v]
  }

  function Collect(h: Host, items: seq<Value>, k: nat, acc: seq<Value>): Option<seq<Value>>
    requires k <= |items|
    decreases |items| - k
  {
    if k == |items| then Some(acc)
    else if !Hashable(items[k]) then None
    else Collect(h, items, k + 1, AddMember(h, acc, items[k]))
  }

  function Keys(flat: seq<Value>): seq<Value> {
    if |flat| < 2 then [] else [flat[0]] + Keys(flat[2..])
  }

  /** What iterating over a decoded payload yields, if it can be iterated. */
  function Iterated(h: Host, v: Value): Option<seq<Value>> {
    match v
    case Arr(items, _) => Some(items)
    case Set(items, _) => Some(items)
    case Map(items) => Some(Keys(items))
    case Bin(data) => Some(seq(|data|, i requires 0 <= i < |data| => Int(data[i] as int)))
    case Str(text) => Some(h.chars(text))
    case _ => None
  }

  function MakeSet(h: Host, v: Value, frozen: bool): Option<Value> {
    match Iterated(h, v)
    case None => None
    case Some(items) =>
      match Collect(h, items, 0, [])
      case None => None
      case Some(members) => Some(Set(members, frozen))
  }

  function Rest(buf: seq<byte>, idx: nat): nat {
    if idx < |buf| then |buf| - idx else 0
  }

  function ReadText(h: Host, buf: seq<byte>, idx: nat, n: nat): Result<Value> {
    if h.utf8(Slice(buf, idx, n)) then Ok(Str(Slice(buf, idx, n)), idx + n) else Err(Invalid)
  }

  function ReadBin(buf: seq<byte>, idx: nat, n: nat): Result<Value> {
    Ok(Bin(Slice(buf, idx, n)), idx + n)
  }

  /** A length or number of `k` bytes, or an error at the end of the buffer. */
  function ReadBe(buf: seq<byte>, idx: nat, k: nat): (r: Result<nat>)
    ensures r.Ok? ==> r.next == idx + k <= |buf| && r.value == BeAt(buf, idx, k)
    ensures r.Err? ==> r.error == Truncated
    ensures r.Ok? <==> idx + k <= |buf|
  {
    if idx + k <= |buf| then Ok(BeAt(buf, idx, k), idx + k) else Err(Truncated)
  }

  function ReadInt(buf: seq<byte>, idx: nat, k: nat, signed: bool): Result<Value> {
    match ReadBe(buf, idx, k)
    case Ok(u, next) => Ok(Int(if signed then Signed(u, k) else u), next)
    case Err(e) => Err(e)
  }

  function ReadFloat(h: Host, buf: seq<byte>, idx: nat, k: nat): Result<Value> {
    if idx + k <= |buf| then Ok(Float(if k == 4 then h.widen(buf[idx..idx + k]) else buf[idx..idx + k]), idx + k)
    else Err(Truncated)
  }

  /** How many length bytes follow a header byte. */
  function LengthBytes(b: nat): nat {
    if b == 0xC4 || b == 0xC7 || b == 0xD9 then 1
    else if b == 0xC5 || b == 0xC8 || b == 0xDA || b == 0xDC || b == 0xDE then 2
    else if b == 0xC6 || b == 0xC9 || b == 0xDB || b == 0xDD || b == 0xDF then 4
    else 0
  }

  /** Text and binaries that announce their length; any other header byte is unknown. */
  function ReadSized(h: Host, buf: seq<byte>, at: nat, b: nat): (r: Result<Value>)
    requires at <= |buf|
    ensures r.Ok? ==> r.next >= at
  {
    match ReadBe(buf, at, LengthBytes(b))
    case Err(e) => Err(e)
    case Ok(n, next) =>
      if 0xD9 <= b <= 0xDB then ReadText(h, buf, next, n)
      else if 0xC4 <= b <= 0xC6 then ReadBin(buf, next, n)
      else Err(Invalid)
  }

  /** Everything that holds no other values, given its header byte. */
  function ReadScalar(h: Host, buf: seq<byte>, at: nat, b: nat): (r: Result<Value>)
    requires 0 < at <= |buf|
    ensures r.Ok? ==> r.next >= at
  {
    if b < 0x80 then Ok(Int(b), at)
    else if 0xA0 <= b <= 0xBF then ReadText(h, buf, at, b - 0xA0)
    else if b >= 0xE0 then Ok(Int(b - 0x100), at)
    else if b == 0xC0 then Ok(Nil, at)
    else if b == 0xC2 then Ok(Bool(false), at)
    else if b == 0xC3 then Ok(Bool(true), at)
    else if b == 0xCC then ReadInt(buf, at, 1, false)
    else if b == 0xCD then ReadInt(buf, at, 2, false)
    else if b == 0xCE then ReadInt(buf, at, 4, false)
    else if b == 0xCF then ReadInt(buf, at, 8, false)
    else if b == 0xD0 then ReadInt(buf, at, 1, true)
    else if b == 0xD1 then ReadInt(buf, at, 2, true)
    else if b == 0xD2 then ReadInt(buf, at, 4, true)
    else if b == 0xD3 then ReadInt(buf, at, 8, true)
    else if b == 0xCB then ReadFloat(h, buf, at, 8)
    else if b == 0xCA then ReadFloat(h, buf, at, 4)
    else ReadSized(h, buf, at, b)
  }

  datatype Kind = Scalar | Sequence | Mapping | Extension

  /** What a header byte announces. */
  function KindOf(b: nat): Kind {
    if 0x80 <= b <= 0x8F || b == 0xDE || b == 0xDF then Mapping
    else if 0x90 <= b <= 0x9F || b == 0xDC || b == 0xDD then Sequence
    else if 0xD4 <= b <= 0xD8 || 0xC7 <= b <= 0xC9 then Extension
    else Scalar
  }

  /** The count a container's header carries, in the header byte itself or behind it. */
  function ReadCount(buf: seq<byte>, at: nat, b: nat): (r: Result<nat>)
    requires KindOf(b) != Scalar
    ensures r.Ok? ==> r.next >= at
    ensures r.Err? ==> r.error == Truncated
  {
    if b <= 0x9F then Ok(b % 16, at)
    else if b == 0xD4 then Ok(1, at)
    else if b == 0xD5 then Ok(2, at)
    else if b == 0xD6 then Ok(4, at)
    else if b == 0xD7 then Ok(8, at)
    else if b == 0xD8 then Ok(16, at)
    else ReadBe(buf, at, LengthBytes(b))
  }

  /** One value starting at `idx`, and the position behind it. */
  function Unpack(h: Host, buf: seq<byte>, idx: nat): (r: Result<Value>)
    ensures r.Ok? ==> r.next > idx
    decreases Rest(buf, idx), 0
  {
    if idx >= |buf| then Err(Truncated)
    else
      var b := buf[idx] as nat;
      if KindOf(b) == Scalar then ReadScalar(h, buf, idx + 1, b)
      else
        match ReadCount(buf, idx + 1, b)
        case Err(e) => Err(e)
        case Ok(n, next) =>
          if KindOf(b) == Sequence then ReadArr(h, buf, next, n, [])
          else if KindOf(b) == Mapping then ReadMap(h, buf, next, n, [])
          else ReadExt(h, buf, next, n)
  }

  /** `n` more elements behind those in `acc`. */
  function ReadArr(h: Host, buf: seq<byte>, idx: nat, n: nat, acc: seq<Value>): (r: Result<Value>)
    ensures r.Ok? ==> r.next >= idx
    decreases Rest(buf, idx), 2, n
  {
    if n == 0 then Ok(Arr(acc, false), idx)
    else
      match Unpack(h, buf, idx)
      case Err(e) => Err(e)
      case Ok(v, next) => ReadArr(h, buf, next, n - 1, acc + [v])
  }

  /** `n` more entries; a key that cannot be hashed shows only after its value has been read. */
  function ReadMap(h: Host, buf: seq<byte>, idx: nat, n: nat, acc: seq<Value>): (r: Result<Value>)
    requires |acc| % 2 == 0
    ensures r.Ok? ==> r.next >= idx
    decreases Rest(buf, idx), 2, n
  {
    if n == 0 then Ok(Map(acc), idx)
    else
      match Unpack(h, buf, idx)
      case Err(e) => Err(e)
      case Ok(key, next) =>
        match Unpack(h, buf, next)
        case Err(e) => Err(e)
        case Ok(val, end) =>
          if Hashable(key) then ReadMap(h, buf, end, n - 1, PutPair(h, acc, key, val)) else Err(BadType)
  }

  /** The set made of a decoded payload; it ends where the extension says, wherever the payload ended. */
  function AsSet(h: Host, payload: Result<Value>, frozen: bool, next: nat): (r: Result<Value>)
    ensures r.Ok? ==> r.next == next
  {
    match payload
    case Err(e) => Err(e)
    case Ok(v, _) =>
      match MakeSet(h, v, frozen)
      case None => Err(BadType)
      case Some(s) => Ok(s, next)
  }

  /** An extension of `size` payload bytes: its code, then one value whose own length is not looked at. */
  function ReadExt(h: Host, buf: seq<byte>, idx: nat, size: nat): (r: Result<Value>)
    ensures r.Ok? ==> r.next >= idx
    decreases Rest(buf, idx), 1
  {
    if idx >= |buf| then Err(Truncated)
    else if buf[idx] != EXT_SET && buf[idx] != EXT_FROZENSET then Err(Invalid)
    else
      AsSet(h, Unpack(h, buf, idx + 1), buf[idx] == EXT_FROZENSET, idx + 1 + size)
  }
}
