/** The in-memory byte stream under the codecs and the KEY file. */
module ByteFile {
  import opened Bytes

  class JBytesIO {
    var buf: seq<byte>
    var idx: nat

    constructor (data: seq<byte>)
      ensures buf == data && idx == 0
    {
      buf, idx := data, 0;
    }

    /** Moves the position, possibly past the end; false for a negative one. */
    method Seek(offset: int) returns (ok: bool)
      modifies this`idx
      ensures ok <==> offset >= 0
      ensures idx == if offset >= 0 then offset else old(idx)
    {
      ok := offset >= 0;
      if ok {
        idx := offset;
      }
    }

    /** At most `size` bytes from the position on; fewer near the end, none beyond it. */
    method Read(size: nat) returns (data: seq<byte>)
      modifies this`idx
      ensures idx == if old(idx) < |buf| then Min(|buf|, old(idx) + size) else old(idx)
      ensures data == if old(idx) < |buf| then buf[old(idx)..idx] else []
    {
      var next := Min(|buf|, idx + size);
      if next <= idx {
        return [];
      }
      data := buf[idx..next];
      idx := next;
    }

    /** Stores `data` at the position: a gap left by seeking is zero-filled, the stream grows as needed. */
    method Write(data: seq<byte>) returns (n: nat)
      modifies this`buf, this`idx
      ensures n == |data| && buf == Splice(old(buf), old(idx), data)
      ensures idx == old(idx) + |data|
    {
      n := |data|;
      if n == 0 {
        return;
      }
      if idx > |buf| {
        buf := buf + Fill(0, idx - |buf|);
      }
      if idx >= |buf| {
        buf := buf + data;
        idx := |buf|;
      } else {
        buf := buf[..idx] + data + (if idx + n <= |buf| then buf[idx + n..] else []);
        idx := idx + n;
      }
    }

    /** Cuts the stream off at the position; never enlarges it. */
    method Truncate()
      modifies this`buf
      ensures buf == if idx < |old(buf)| then old(buf)[..idx] else old(buf)
    {
      if idx < |buf| {
        buf := buf[..idx];
      }
    }
  }

  /** Writing at the end appends. */
  lemma SpliceEnd(store: seq<byte>, data: seq<byte>)
    ensures Splice(store, |store|, data) == store + data
  {
  }

  /** Byte for byte: what a write changes, wherever it begins; a gap left behind the end holds zeros. */
  lemma WrittenBytes(store: seq<byte>, at: nat, data: seq<byte>)
    requires data != []
    ensures var s := Splice(store, at, data);
      && |s| == Max(|store|, at + |data|)
      && forall i :: 0 <= i < |s| ==>
           s[i] == if at <= i < at + |data| then data[i - at] else if i < |store| then store[i] else 0
  {
  }
}
