/** The codec as it runs: a writer that appends to a byte stream and rewinds it to wrap a set,
    readers that fill containers in loops, and the streaming reader. */
module MsgCodec {
  import opened BigEndian
  import opened Bytes
  import opened ByteFile
  import opened MsgPack
  import opened MsgTrip

  // ---- writing ----

  /** Writing at a position inside the stream or at its end: what is read back up to there. */
  lemma SplicePrefix(store: seq<byte>, at: nat, data: seq<byte>)
    requires at <= |store|
    ensures |Splice(store, at, data)| == if at + |data| <= |store| then |store| else at + |data|
    ensures Splice(store, at, data)[..at + |data|] == store[..at] + data
  {
  }

  method Append(io: JBytesIO, data: seq<byte>)
    requires io.idx == |io.buf|
    modifies io
    ensures io.buf == old(io.buf) + data && io.idx == |io.buf|
  {
    SpliceEnd(io.buf, data);
    var _ := io.Write(data);
  }

  /** Writing at a position inside the stream: what was in front of it stays, the new bytes follow. */
  method WriteOver(io: JBytesIO, data: seq<byte>)
    requires io.idx <= |io.buf|
    modifies io
    ensures io.idx == old(io.idx) + |data| <= |io.buf| == Max(|old(io.buf)|, old(io.idx) + |data|)
    ensures io.buf[..io.idx] == old(io.buf)[..old(io.idx)] + data
  {
    SplicePrefix(io.buf, io.idx, data);
    var _ := io.Write(data);
  }

  /** Wraps what was written since `start` as an extension: it is copied out, the stream is rewound, and
      header, code and payload are written over it. */
  method Rewrap(io: JBytesIO, start: nat, frozen: bool) returns (ok: bool)
    requires start < |io.buf| && io.idx == |io.buf|
    modifies io
    ensures var payload := old(io.buf)[start..];
      ok == WrapSet(frozen, payload).Some?
      && (if ok then io.buf == old(io.buf)[..start] + WrapSet(frozen, payload).value && io.idx == |io.buf|
          else io.buf == old(io.buf))
  {
    hide ExtHead;
    var size := io.idx - start;
    var data := io.buf[start..];
    var _ := io.Seek(start);
    if size >= LIMIT32 {
      return false;
    }
    ghost var front := io.buf[..start];
    var head := ExtHead(size);
    var code := [if frozen then EXT_FROZENSET else EXT_SET];
    WriteOver(io, head);
    WriteOver(io, code);
    WriteOver(io, data);
    assert io.buf == front + head + code + data;
    assert front + head + code + data == front + (head + code + data);
    ok := true;
  }

  /** A value that holds no others: its header, then its bytes. */
  method PackScalar(v: Value, io: JBytesIO) returns (ok: bool)
    requires io.idx == |io.buf| && !(v.Arr? || v.Map? || v.Set?)
    modifies io
    ensures ok == Pack(v, 0).Some?
    ensures io.buf == old(io.buf) + (if ok then Pack(v, 0).value else []) && io.idx == |io.buf|
  {
    hide PackInt, BinHead, StrHead;
    ok := true;
    match v {
      case Nil => Append(io, [0xC0]);
      case Bool(on) => Append(io, [if on then 0xC3 else 0xC2]);
      case Int(n) =>
        var e := PackInt(n);
        ok := e.Some?;
        if ok {
          Append(io, e.value);
        }
      case Float(bits) => Append(io, [0xCB] + bits);
      case Bin(data) =>
        ok := |data| < LIMIT32;
        if ok {
          Append(io, BinHead(|data|));
          Append(io, data);
        }
      case Str(text) =>
        ok := |text| < LIMIT32;
        if ok {
          Append(io, StrHead(|text|));
          Append(io, text);
        }
    }
  }

  /** _msg_pack: appends the encoding of the value to the stream and leaves every earlier byte alone;
      fails, with nothing but a tail added, when there is no encoding. */
  method PackTo(v: Value, io: JBytesIO, nest: int) returns (ok: bool, n: nat)
    requires io.idx == |io.buf|
    modifies io
    ensures ok == Pack(v, nest).Some?
    ensures if ok then io.buf == old(io.buf) + Pack(v, nest).value && io.idx == |io.buf| && n == |Pack(v, nest).value|
            else old(io.buf) <= io.buf
    decreases v
  {
    hide PackInt, BinHead, StrHead, WrapSet;
    var start := io.idx;
    n := 0;
    if nest < 0 {
      return false, 0;
    }
    if !(v.Arr? || v.Map? || v.Set?) {
      ok := PackScalar(v, io);
      n := if ok then io.idx - start else 0;
      return;
    }
    if ItemCount(v) >= LIMIT32 {
      return false, 0;
    }
    ghost var was := io.buf;
    Append(io, ItemsHead(v));
    ok := PackItems(v, io, nest - 1);
    if !ok {
      return;
    }
    if v.Set? {
      assert io.buf[start..] == ItemsHead(v) + PackFrom(v, 0, nest - 1).value;
      assert io.buf[..start] == was;
      ok := Rewrap(io, start, v.frozen);
    }
    n := if ok then io.idx - start else 0;
  }

  /** What has been packed so far and what is still to come make up the whole. */
  ghost predicate Packing(v: Value, i: nat, nest: int, was: seq<byte>, now: seq<byte>) {
    && i <= |Items(v)| && was <= now
    && (PackFrom(v, i, nest).Some? <==> PackFrom(v, 0, nest).Some?)
    && (PackFrom(v, 0, nest).Some? ==> now + PackFrom(v, i, nest).value == was + PackFrom(v, 0, nest).value)
  }

  lemma PackingStep(v: Value, i: nat, nest: int, was: seq<byte>, now: seq<byte>)
    requires Packing(v, i, nest, was, now) && i < |Items(v)|
    ensures Pack(Items(v)[i], nest).None? ==> PackFrom(v, 0, nest).None?
    ensures Pack(Items(v)[i], nest).Some? ==> Packing(v, i + 1, nest, was, now + Pack(Items(v)[i], nest).value)
  {
    hide Pack;
    var e := Pack(Items(v)[i], nest);
    if PackFrom(v, i, nest).Some? {
      var tail := PackFrom(v, i + 1, nest).value;
      assert now + (e.value + tail) == now + e.value + tail;
    }
  }

  method PackItems(v: Value, io: JBytesIO, nest: int) returns (ok: bool)
    requires io.idx == |io.buf|
    modifies io
    ensures ok == PackFrom(v, 0, nest).Some?
    ensures if ok then io.buf == old(io.buf) + PackFrom(v, 0, nest).value && io.idx == |io.buf| else old(io.buf) <= io.buf
    decreases v, 0
  {
    ghost var was := io.buf;
    var items := Items(v);
    for i := 0 to |items|
      invariant io.idx == |io.buf| && Packing(v, i, nest, was, io.buf)
    {
      PackingStep(v, i, nest, was, io.buf);
      var n;
      ok, n := PackTo(items[i], io, nest);
      if !ok {
        return;
      }
      assert Packing(v, i + 1, nest, was, io.buf);
    }
    ok := true;
  }

  /** msg_dumps: the encoding of a value in a stream of its own. */
  method MsgDumps(v: Value) returns (r: Option<seq<byte>>)
    ensures r == Pack(v, NEST_LIMIT)
  {
    var io := new JBytesIO([]);
    var ok, n := PackTo(v, io, NEST_LIMIT);
    assert ok ==> io.buf == Pack(v, NEST_LIMIT).value;
    r := if ok then Some(io.buf) else None;
  }

  // ---- reading ----

  method MsgUnpack(h: Host, buf: seq<byte>, idx: nat) returns (r: Result<Value>)
    ensures r == Unpack(h, buf, idx)
    decreases Rest(buf, idx), 0
  {
    if idx >= |buf| {
      return Err(Truncated);
    }
    var b := buf[idx] as nat;
    if KindOf(b) == Scalar {
      return ReadScalar(h, buf, idx + 1, b);
    }
    var count := ReadCount(buf, idx + 1, b);
    if count.Err? {
      return Err(count.error);
    }
    if KindOf(b) == Sequence {
      r := ReadArray(h, buf, count.next, count.value);
    } else if KindOf(b) == Mapping {
      r := ReadDict(h, buf, count.next, count.value);
    } else {
      r := ReadExtension(h, buf, count.next, count.value);
    }
  }

  method ReadArray(h: Host, buf: seq<byte>, start: nat, n: nat) returns (r: Result<Value>)
    ensures r == ReadArr(h, buf, start, n, [])
    decreases Rest(buf, start), 2
  {
    var arr, idx := [], start;
    for i := 0 to n
      invariant start <= idx && ReadArr(h, buf, start, n, []) == ReadArr(h, buf, idx, n - i, arr)
    {
      var item := MsgUnpack(h, buf, idx);
      if item.Err? {
        return Err(item.error);
      }
      arr := arr + [item.value];
      idx := item.next;
    }
    r := Ok(Arr(arr, false), idx);
  }

  method ReadDict(h: Host, buf: seq<byte>, start: nat, n: nat) returns (r: Result<Value>)
    ensures r == ReadMap(h, buf, start, n, [])
    decreases Rest(buf, start), 2
  {
    hide Unpack, Hashable, PutPair;
    var flat, idx := [], start;
    for i := 0 to n
      invariant start <= idx && |flat| % 2 == 0
      invariant ReadMap(h, buf, start, n, []) == ReadMap(h, buf, idx, n - i, flat)
    {
      var key := MsgUnpack(h, buf, idx);
      if key.Err? {
        return Err(key.error);
      }
      var val := MsgUnpack(h, buf, key.next);
      if val.Err? {
        return Err(val.error);
      }
      if !Hashable(key.value) {
        return Err(BadType);
      }
      flat := PutPair(h, flat, key.value, val.value);
      idx := val.next;
    }
    r := Ok(Map(flat), idx);
  }

  method ReadExtension(h: Host, buf: seq<byte>, idx: nat, size: nat) returns (r: Result<Value>)
    ensures r == ReadExt(h, buf, idx, size)
    decreases Rest(buf, idx), 1
  {
    if idx >= |buf| {
      return Err(Truncated);
    }
    var code := buf[idx];
    if code != EXT_SET && code != EXT_FROZENSET {
      return Err(Invalid);
    }
    var payload := MsgUnpack(h, buf, idx + 1);
    r := AsSet(h, payload, code == EXT_FROZENSET, idx + 1 + size);
  }

  // ---- one value after another ----

  datatype Step = Item(value: Value) | Stop | Raise(error: Error)

  class Unpacker {
    var buf: seq<byte>
    var idx: nat

    constructor ()
      ensures buf == [] && idx == 0
    {
      buf, idx := [], 0;
    }

    method Feed(data: seq<byte>)
      modifies this
      ensures buf == data && idx == 0
    {
      buf, idx := data, 0;
    }

    /** The next object; the end of the buffer, or an incomplete object at its end, stops the iteration. */
    method Next(h: Host) returns (s: Step)
      modifies this`idx
      ensures if old(idx) >= |buf| then s == Stop && idx == old(idx)
              else match Unpack(h, buf, old(idx))
                   case Ok(v, next) => s == Item(v) && idx == next
                   case Err(e) => s == (if e == Truncated then Stop else Raise(e)) && idx == old(idx)
    {
      if idx >= |buf| {
        return Stop;
      }
      var r := MsgUnpack(h, buf, idx);
      if r.Err? {
        return if r.error == Truncated then Stop else Raise(r.error);
      }
      idx := r.next;
      s := Item(r.value);
    }

    /** Iterating until nothing more comes. */
    method Drain(h: Host) returns (items: seq<Value>)
      modifies this`idx
      ensures items == Drained(h, buf, old(idx))
    {
      items := [];
      ghost var from := idx;
      while true
        invariant Drained(h, buf, from) == items + Drained(h, buf, idx)
        decreases Rest(buf, idx)
      {
        ghost var here := idx;
        var s := Next(h);
        if !s.Item? {
          assert Drained(h, buf, here) == [];
          return;
        }
        assert Drained(h, buf, here) == [s.value] + Drained(h, buf, idx);
        items := items + [s.value];
      }
    }
  }

  /** What iterating from a position on yields. */
  function Drained(h: Host, buf: seq<byte>, idx: nat): seq<Value>
    decreases Rest(buf, idx)
  {
    if idx >= |buf| then []
    else
      match Unpack(h, buf, idx)
      case Err(_) => []
      case Ok(v, next) => [v] + Drained(h, buf, next)
  }

  /** The encodings of several values, one behind the other. */
  function PackAll(vs: seq<Value>): Option<seq<byte>> {
    if vs == [] then Some([])
    else
      match Pack(vs[0], NEST_LIMIT)
      case None => None
      case Some(e) =>
        match PackAll(vs[1..])
        case None => None
        case Some(more) => Some(e + more)
  }

  /** A run of encoded values comes out of the streaming reader as the same values in the same order. */
  lemma {:induction false} DrainTrip(h: Host, vs: seq<Value>, e: seq<byte>, buf: seq<byte>, idx: nat)
    requires (forall v :: v in vs ==> Valid(h, v) && Restorable(v)) && PackAll(vs) == Some(e)
    requires At(buf, idx, e) && idx + |e| == |buf|
    ensures |Drained(h, buf, idx)| == |vs|
    ensures forall i :: 0 <= i < |vs| ==> Drained(h, buf, idx)[i] == Norm(vs[i])
  {
    hide Unpack, At, Pack, Valid, Restorable, Norm;
    if vs != [] {
      var head, tail := Pack(vs[0], NEST_LIMIT).value, PackAll(vs[1..]).value;
      assert vs[0] in vs;
      AtParts(buf, idx, head, tail);
      Trip(h, vs[0], NEST_LIMIT, head, buf, idx);
      Expects(vs[0], idx + |head|);
      AtBounds(buf, idx, e);
      DrainTrip(h, vs[1..], tail, buf, idx + |head|);
    }
  }

  lemma Expects(v: Value, next: nat)
    requires Restorable(v)
    ensures Expected(v, next) == Ok(Norm(v), next)
  {
  }

  lemma AtBounds(buf: seq<byte>, idx: nat, e: seq<byte>)
    requires At(buf, idx, e)
    ensures idx + |e| <= |buf|
  {
  }
}
