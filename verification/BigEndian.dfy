/** Fixed-width big-endian numbers inside byte strings. */
module BigEndian {
  import opened Bytes

  function Pow256(k: nat): (p: nat)
    ensures p > 0
  {
    if k == 0 then 1 else 256 * Pow256(k - 1)
  }

  function Be(n: nat, k: nat): (s: seq<byte>)
    ensures |s| == k
  {
    if k == 0 then [] else Be(n / 256, k - 1) + [(n % 256) as byte]
  }

  function BeAt(buf: seq<byte>, at: nat, k: nat): (n: nat)
    requires at + k <= |buf|
    ensures n < Pow256(k)
  {
    if k == 0 then 0 else BeAt(buf, at, k - 1) * 256 + buf[at + k - 1] as nat
  }

  /** `e` stands at `at` in `buf`. */
  predicate At(buf: seq<byte>, at: nat, e: seq<byte>) {
    at + |e| <= |buf| && buf[at..at + |e|] == e
  }

  lemma {:induction false} BeReads(buf: seq<byte>, at: nat, n: nat, k: nat)
    requires n < Pow256(k) && At(buf, at, Be(n, k))
    ensures BeAt(buf, at, k) == n
  {
    if k > 0 {
      var init := Be(n / 256, k - 1);
      assert Be(n, k)[..k - 1] == init;
      assert buf[at..at + k][..k - 1] == buf[at..at + k - 1];
      BeReads(buf, at, n / 256, k - 1);
      assert Be(n, k)[k - 1] == (n % 256) as byte;
      assert buf[at + k - 1] == buf[at..at + k][k - 1];
      assert BeAt(buf, at, k - 1) == n / 256;
    }
  }

  lemma AtParts(buf: seq<byte>, idx: nat, a: seq<byte>, b: seq<byte>)
    requires At(buf, idx, a + b)
    ensures At(buf, idx, a) && At(buf, idx + |a|, b)
  {
    assert (a + b)[..|a|] == a && (a + b)[|a|..] == b;
    assert buf[idx..idx + |a + b|][..|a|] == buf[idx..idx + |a|];
    assert buf[idx..idx + |a + b|][|a|..] == buf[idx + |a|..idx + |a| + |b|];
  }

  lemma AtByte(buf: seq<byte>, idx: nat, e: seq<byte>)
    requires At(buf, idx, e) && |e| > 0
    ensures idx < |buf| && buf[idx] == e[0]
  {
    assert buf[idx] == buf[idx..idx + |e|][0];
  }

  lemma Powers()
    ensures Pow256(1) == 0x100 && Pow256(2) == 0x1_0000 && Pow256(4) == 0x1_0000_0000
    ensures Pow256(8) == 0x1_0000_0000_0000_0000
  {
    assert Pow256(0) == 1;
    assert Pow256(3) == 0x100_0000;
    assert Pow256(5) == 0x100_0000_0000 && Pow256(6) == 0x1_0000_0000_0000 && Pow256(7) == 0x100_0000_0000_0000;
  }
}
