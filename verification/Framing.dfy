/** Messages over a byte stream: an 8-byte header with a tag and a length, the encoded value, zeros up to a multiple of 8. */
module Framing {
  import opened BigEndian
  import opened Bits
  import opened Bytes
  import opened MsgPack
  import opened MsgTrip
  import opened MsgCodec

  const FEED := 0xFEED
  const SIZE_LIMIT := 0x1_0000_0000_0000

  /** What receiving a message comes to: the message, the end of the stream, or an error. */
  datatype Received = Message(value: Value) | Eof | BadFrame | BadValue

  function Aligned(size: nat): (n: nat)
    ensures size <= n < size + 8 && n % 8 == 0
  {
    size / 8 * 8 + (if size % 8 != 0 then 8 else 0)
  }

  /** The header word of a message of `size` bytes. */
  function Header(size: nat): nat { Or(Shl(FEED, 48), size) }

  /** The length a header word carries, if it carries the tag. */
  function SizeIn(header: nat): Option<nat> {
    if And(header, Mask(16, 48)) != Shl(FEED, 48) then None else Some(And(header, Mask(48, 0)))
  }

  function Frame(data: seq<byte>): seq<byte> {
    Be(Header(|data|), 8) + data + Fill(0, Aligned(|data|) - |data|)
  }

  /** A message is decoded from its own bytes; what follows in the frame is ignored. */
  function Decoded(h: Host, data: seq<byte>): Received {
    if data == [] then BadFrame
    else
      match Unpack(h, data, 0)
      case Ok(v, _) => Message(v)
      case Err(e) => if e == BadType then BadValue else BadFrame
  }

  /** Reading one message off a stream: what it comes to, and the rest of the stream. */
  function Load(h: Host, stream: seq<byte>): (Received, seq<byte>) {
    if |stream| < 8 then (Eof, [])
    else
      match SizeIn(BeAt(stream, 0, 8))
      case None => (BadFrame, stream[8..])
      case Some(size) =>
        if |stream| - 8 < Aligned(size) then (Eof, [])
        else (Decoded(h, stream[8..8 + size]), stream[8 + Aligned(size)..])
  }

  /** A connected socket: the bytes still to arrive, and the bytes sent. */
  class Socket {
    var inbox: seq<byte>
    var sent: seq<byte>

    constructor (inbox: seq<byte>)
      ensures this.inbox == inbox && sent == []
    {
      this.inbox, sent := inbox, [];
    }

    /** Some of the next bytes, at least one and at most `n`; none only at the end of the stream. */
    method Recv(n: nat) returns (packet: seq<byte>)
      requires n > 0
      modifies this`inbox
      ensures old(inbox) == packet + inbox && |packet| <= n
      ensures packet == [] <==> old(inbox) == []
    {
      if inbox == [] {
        return [];
      }
      var k: nat :| 0 < k <= n && k <= |inbox|;
      packet := inbox[..k];
      inbox := inbox[k..];
    }

    method SendAll(data: seq<byte>)
      modifies this`sent
      ensures sent == old(sent) + data
    {
      sent := sent + data;
    }
  }

  /** recv_exactly: exactly the aligned number of bytes, however they are divided on the way. */
  method RecvExactly(sock: Socket, size: nat) returns (r: Option<seq<byte>>)
    modifies sock`inbox
    ensures if |old(sock.inbox)| < Aligned(size) then r == None && sock.inbox == []
            else r == Some(old(sock.inbox)[..Aligned(size)]) && sock.inbox == old(sock.inbox)[Aligned(size)..]
  {
    var alignSize := Aligned(size);
    var data: seq<byte> := [];
    ghost var all := sock.inbox;
    while |data| < alignSize
      invariant all == data + sock.inbox && |data| <= alignSize
      decreases |sock.inbox|, alignSize - |data|
    {
      var packet := sock.Recv(alignSize - |data|);
      if packet == [] {
        assert all == data;
        return None;
      }
      data := data + packet;
    }
    r := Some(data);
  }

  /** recv_and_load, on any division of the stream. */
  method RecvAndLoad(h: Host, sock: Socket) returns (r: Received)
    modifies sock`inbox
    ensures (r, sock.inbox) == Load(h, old(sock.inbox))
  {
    hide Decoded, SizeIn, BeAt, Pow256, Aligned;
    ghost var all := sock.inbox;
    AlignedHeader();
    var head := RecvExactly(sock, 8);
    if head.None? {
      return Eof;
    }
    assert head.value == all[..8];
    BeFront(all, 8);
    var size := SizeIn(BeAt(head.value, 0, 8));
    if size.None? {
      return BadFrame;
    }
    var req := RecvExactly(sock, size.value);
    if req.None? {
      return Eof;
    }
    assert req.value[..size.value] == all[8..8 + size.value];
    assert sock.inbox == all[8 + Aligned(size.value)..];
    r := LoadValue(h, req.value[..size.value]);
  }

  lemma AlignedHeader()
    ensures Aligned(8) == 8
  {
  }

  method LoadValue(h: Host, data: seq<byte>) returns (r: Received)
    ensures r == Decoded(h, data)
  {
    if data == [] {
      return BadFrame;
    }
    var v := MsgUnpack(h, data, 0);
    if v.Ok? {
      return Message(v.value);
    }
    r := if v.error == BadType then BadValue else BadFrame;
  }

  /** dump_and_send: false when the value has no encoding; nothing is sent then. */
  method DumpAndSend(sock: Socket, v: Value) returns (ok: bool)
    modifies sock`sent
    ensures ok == Pack(v, NEST_LIMIT).Some?
    ensures sock.sent == old(sock.sent) + (if ok then Frame(Pack(v, NEST_LIMIT).value) else [])
  {
    var data := MsgDumps(v);
    ok := data.Some?;
    if ok {
      var size := |data.value|;
      var buf := Fill(0, 8 + Aligned(size));
      buf := Be(Header(size), 8) + buf[8..];
      buf := buf[..8] + data.value + buf[8 + size..];
      assert buf == Frame(data.value);
      sock.SendAll(buf);
    }
  }

  lemma {:induction false} BeFront(s: seq<byte>, k: nat)
    requires k <= |s|
    ensures BeAt(s[..k], 0, k) == BeAt(s, 0, k)
  {
    BeAgree(s[..k], s, k);
  }

  lemma {:induction false} BeAgree(a: seq<byte>, b: seq<byte>, k: nat)
    requires k <= |a| && k <= |b| && forall i :: 0 <= i < k ==> a[i] == b[i]
    ensures BeAt(a, 0, k) == BeAt(b, 0, k)
  {
    if k > 0 {
      BeAgree(a, b, k - 1);
    }
  }

  lemma Sizes()
    ensures Pow2(48) == SIZE_LIMIT && Pow2(16) == 0x1_0000 && Pow2(0) == 1
    ensures Shl(FEED, 48) == FEED * SIZE_LIMIT && (FEED + 1) * SIZE_LIMIT < Pow256(8)
  {
    hide Pow2, Pow256;
    PowerValues();
    Powers();
  }

  /** The header of a frame carries the tag and the length, and nothing else. */
  lemma HeaderReads(size: nat)
    requires size < SIZE_LIMIT
    ensures Header(size) < Pow256(8)
    ensures SizeIn(Header(size)) == Some(size)
  {
    hide Or, And, Pow2, Pow256, Mask;
    Sizes();
    OrCommutes(Shl(FEED, 48), size);
    OrAdds(size, FEED, 48);
    GetField(Header(size), 16, 48);
    GetField(Header(size), 48, 0);
    ModIs(Header(size), SIZE_LIMIT, FEED, size);
    ModIs(FEED, 0x1_0000, 0, FEED);
  }

  lemma {:induction false} BeSplits(buf: seq<byte>, at: nat, j: nat, k: nat)
    requires at + j + k <= |buf|
    ensures BeAt(buf, at, j + k) == BeAt(buf, at, j) * Pow256(k) + BeAt(buf, at + j, k)
  {
    if k > 0 {
      BeSplits(buf, at, j, k - 1);
      Scaled(BeAt(buf, at, j), Pow256(k - 1));
    }
  }

  lemma Scaled(x: nat, p: nat)
    ensures x * (256 * p) == x * p * 256
  {
  }

  lemma Tag(header: nat)
    requires header < Pow256(8)
    ensures SizeIn(header).Some? <==> Div(header, SIZE_LIMIT) == FEED
    ensures SizeIn(header).Some? ==> SizeIn(header).value == header % SIZE_LIMIT
  {
    hide And, Pow2, Pow256, Mask;
    Sizes();
    TopOf(header);
    GetField(header, 16, 48);
    GetField(header, 48, 0);
    ModIs(Div(header, SIZE_LIMIT), 0x1_0000, 0, Div(header, SIZE_LIMIT));
    DivOne(header);
  }

  lemma DivOne(x: nat)
    ensures Div(x, 1) == x
  {
  }

  lemma TopOf(header: nat)
    requires header < Pow256(8)
    ensures Div(header, SIZE_LIMIT) < 0x1_0000
  {
    Powers();
  }

  lemma TwoBytes(stream: seq<byte>)
    requires |stream| >= 2
    ensures BeAt(stream, 0, 2) == FEED <==> stream[0] == 0xFE && stream[1] == 0xED
  {
    assert BeAt(stream, 0, 1) == stream[0] as nat;
  }

  lemma SixBytes()
    ensures Pow256(6) == SIZE_LIMIT
  {
    assert Pow256(3) == 0x100_0000;
  }

  lemma DivMod(top: nat, low: nat)
    requires low < SIZE_LIMIT
    ensures Div(top * SIZE_LIMIT + low, SIZE_LIMIT) == top && (top * SIZE_LIMIT + low) % SIZE_LIMIT == low
  {
  }

  /** On the wire: a header is refused exactly when its first two bytes are not FE ED, and else the length
      stands in the six bytes behind them. */
  lemma HeaderOnWire(stream: seq<byte>)
    requires |stream| >= 8
    ensures SizeIn(BeAt(stream, 0, 8)).None? <==> stream[0] != 0xFE || stream[1] != 0xED
    ensures SizeIn(BeAt(stream, 0, 8)).Some? ==> SizeIn(BeAt(stream, 0, 8)).value == BeAt(stream, 2, 6)
  {
    hide SizeIn, Pow256, BeAt, Div;
    var header, top, low := BeAt(stream, 0, 8), BeAt(stream, 0, 2), BeAt(stream, 2, 6);
    BeSplits(stream, 0, 2, 6);
    TwoBytes(stream);
    SixBytes();
    DivMod(top, low);
    Tag(header);
  }

  /** A message without the tag is refused, and only its header is taken off the stream. */
  lemma UntaggedIsRefused(h: Host, stream: seq<byte>)
    requires |stream| >= 8 && (stream[0] != 0xFE || stream[1] != 0xED)
    ensures Load(h, stream) == (BadFrame, stream[8..])
  {
    hide SizeIn, Decoded;
    HeaderOnWire(stream);
  }

  /** What is sent: the tag, the length, the data, and zeros up to the next multiple of eight. */
  lemma FrameOnWire(data: seq<byte>)
    requires |data| < SIZE_LIMIT
    ensures var f := Frame(data); var pad := (8 - |data| % 8) % 8;
      && |f| == 8 + |data| + pad && f[0] == 0xFE && f[1] == 0xED && BeAt(f, 2, 6) == |data|
      && f[8..8 + |data|] == data && forall i :: 8 + |data| <= i < |f| ==> f[i] == 0
  {
    hide SizeIn, Header, BeAt, Be, Pow256;
    var f := Frame(data);
    HeaderReads(|data|);
    assert f[..8] == Be(Header(|data|), 8);
    BeReads(f, 0, Header(|data|), 8);
    HeaderOnWire(f);
  }

  /** A frame comes off the stream as the value that was sent, and leaves the stream at the next frame. */
  lemma FrameLoads(h: Host, v: Value, e: seq<byte>, rest: seq<byte>)
    requires Valid(h, v) && Restorable(v) && Pack(v, NEST_LIMIT) == Some(e) && |e| < SIZE_LIMIT
    ensures Load(h, Frame(e) + rest) == (Message(Norm(v)), rest)
  {
    hide Unpack, Pack, Valid, Restorable, Norm, SizeIn, Header, BeAt, Be, Pow256;
    var stream := Frame(e) + rest;
    var head := Be(Header(|e|), 8);
    HeaderReads(|e|);
    assert stream[..8] == head;
    BeReads(stream, 0, Header(|e|), 8);
    assert stream[8..8 + |e|] == e;
    assert stream[8 + Aligned(|e|)..] == rest;
    Trip(h, v, NEST_LIMIT, e, e, 0);
    Expects(v, |e|);
    NotEmpty(v, e);
  }

  lemma NotEmpty(v: Value, e: seq<byte>)
    requires Pack(v, NEST_LIMIT) == Some(e)
    ensures |e| > 0
  {
    if v.Arr? || v.Map? || v.Set? {
      var body := ContainerPacks(v, NEST_LIMIT);
    }
  }

  /** What sending several messages puts on the wire. */
  function Frames(vs: seq<Value>): Option<seq<byte>> {
    if vs == [] then Some([])
    else
      match Pack(vs[0], NEST_LIMIT)
      case None => None
      case Some(e) =>
        match Frames(vs[1..])
        case None => None
        case Some(more) => Some(Frame(e) + more)
  }

  function LoadMany(h: Host, stream: seq<byte>, n: nat): (seq<Received>, seq<byte>)
    decreases n
  {
    if n == 0 then ([], stream)
    else
      var (r, rest) := Load(h, stream);
      var (more, end) := LoadMany(h, rest, n - 1);
      ([r] + more, end)
  }

  ghost predicate Sendable(h: Host, v: Value) {
    Valid(h, v) && Restorable(v) && Pack(v, NEST_LIMIT).Some? && |Pack(v, NEST_LIMIT).value| < SIZE_LIMIT
  }

  /** Any number of messages sent one after the other arrive as the same messages in the same order,
      and the stream is left exactly behind the last frame. */
  lemma {:induction false} FramesLoad(h: Host, vs: seq<Value>, wire: seq<byte>, rest: seq<byte>)
    requires (forall v :: v in vs ==> Sendable(h, v)) && Frames(vs) == Some(wire)
    ensures LoadMany(h, wire + rest, |vs|).1 == rest
    ensures |LoadMany(h, wire + rest, |vs|).0| == |vs|
    ensures forall i :: 0 <= i < |vs| ==> LoadMany(h, wire + rest, |vs|).0[i] == Message(Norm(vs[i]))
  {
    hide Load, Pack, Valid, Restorable, Norm, Frame;
    if vs == [] {
      assert wire + rest == rest;
    } else {
      assert vs[0] in vs && Sendable(h, vs[0]);
      var e, more := Pack(vs[0], NEST_LIMIT).value, Frames(vs[1..]).value;
      assert wire + rest == Frame(e) + (more + rest);
      FrameLoads(h, vs[0], e, more + rest);
      FramesLoad(h, vs[1..], more, rest);
      assert LoadMany(h, wire + rest, |vs|).0 == [Message(Norm(vs[0]))] + LoadMany(h, more + rest, |vs| - 1).0;
    }
  }
}
