/** Bytes, the write rule shared by every byte store, and the result types. */
module Bytes {

  newtype byte = x: int | 0 <= x < 256

  datatype Option<+T> = None | Some(value: T)

  function Max(a: nat, b: nat): nat { if a >= b then a else b }

  function Min(a: nat, b: nat): nat { if a <= b then a else b }

  /** `n` copies of one byte. */
  function Fill(b: byte, n: nat): (s: seq<byte>)
    ensures |s| == n
  {
    seq(n, _ => b)
  }

  /** Storing `data` at offset `at`: a gap past the end is zero-filled, bytes past the end extend the store. */
  function Splice(store: seq<byte>, at: nat, data: seq<byte>): (s: seq<byte>)
  {
    if |data| == 0 then
      store
    else if at >= |store| then
      store + Fill(0, at - |store|) + data
    else
      store[..at] + data + (if at + |data| <= |store| then store[at + |data|..] else [])
  }

  /** What a splice inside or at the end of the store changes, and what it leaves alone. */
  lemma SpliceReads(store: seq<byte>, at: nat, data: seq<byte>)
    requires at <= |store|
    ensures |Splice(store, at, data)| == if at + |data| <= |store| then |store| else at + |data|
    ensures Splice(store, at, data)[at..at + |data|] == data
    ensures forall lo, hi :: 0 <= lo <= hi <= |store| && (hi <= at || at + |data| <= lo) ==>
      Splice(store, at, data)[lo..hi] == store[lo..hi]
  {
  }
}
