/** Decoding an encoded value gives the value back and stops right behind it. */
module MsgTrip {
  import opened BigEndian
  import opened Bytes
  import opened MsgPack

  /** Tuples come back as lists; all else comes back as it was. */
  function Norm(v: Value): Value
    decreases v
  {
    match v
    case Arr(_, _) => Arr(NormFrom(v, 0), false)
    case Map(_) => Map(NormFrom(v, 0))
    case Set(_, frozen) => Set(NormFrom(v, 0), frozen)
    case _ => v
  }

  function NormFrom(v: Value, k: nat): (r: seq<Value>)
    requires k <= |Items(v)|
    ensures |r| == |Items(v)| - k
    ensures forall i :: 0 <= i < |r| ==> r[i] == Norm(Items(v)[k + i])
    decreases v, |Items(v)| - k
  {
    if k == |Items(v)| then [] else [Norm(Items(v)[k])] + NormFrom(v, k + 1)
  }

  /** Whether the item of a container has to be hashed when the container is rebuilt. */
  predicate IsKey(v: Value, i: nat) {
    v.Set? || (v.Map? && i % 2 == 0)
  }

  /** The values a program can hold: keys and members are hashable and pairwise unequal. */
  ghost predicate Valid(h: Host, v: Value)
    decreases v
  {
    && (v.Float? ==> |v.bits| == 8)
    && (v.Str? ==> h.utf8(v.text))
    && (v.Map? ==> |v.items| % 2 == 0)
    && (forall i :: 0 <= i < |Items(v)| ==> Valid(h, Items(v)[i]))
    && (forall i :: 0 <= i < |Items(v)| && IsKey(v, i) ==> Hashable(Items(v)[i]))
    && (forall i, j :: 0 <= i < j < |Items(v)| && IsKey(v, i) && IsKey(v, j) ==> !h.eq(Items(v)[i], Items(v)[j]))
  }

  /** No tuple is a member of a set or a key of a map, at any depth. */
  predicate Restorable(v: Value)
    decreases v
  {
    && (forall i :: 0 <= i < |Items(v)| ==> Restorable(Items(v)[i]))
    && (forall i :: 0 <= i < |Items(v)| ==> IsKey(v, i) ==> !Items(v)[i].Arr?)
  }

  /** What decoding the bytes of a value yields. */
  function Expected(v: Value, next: nat): Result<Value> {
    if Restorable(v) then Ok(Norm(v), next) else Err(BadType)
  }

  /** Keys and members come back exactly as they were. */
  lemma {:induction false} NormPlain(h: Host, v: Value)
    requires Valid(h, v) && Restorable(v) && Hashable(v) && !v.Arr?
    ensures Norm(v) == v
    decreases v
  {
    if v.Set? {
      forall i | 0 <= i < |v.items| ensures Norm(v.items[i]) == v.items[i] {
        assert Items(v)[i] == v.items[i] && IsKey(v, i);
        NormPlain(h, v.items[i]);
      }
      assert NormFrom(v, 0) == v.items;
    }
  }

  lemma NormHashable(v: Value)
    requires Hashable(v)
    ensures Hashable(Norm(v)) <==> !v.Arr?
  {
  }

  /** A one-byte tag and a number of `k` bytes behind it. */
  lemma TaggedReads(buf: seq<byte>, idx: nat, tag: byte, n: nat, k: nat)
    requires At(buf, idx, [tag] + Be(n, k)) && n < Pow256(k)
    ensures idx < |buf| && buf[idx] == tag
    ensures ReadBe(buf, idx + 1, k) == Ok(n, idx + 1 + k)
  {
    AtParts(buf, idx, [tag], Be(n, k));
    AtByte(buf, idx, [tag]);
    BeReads(buf, idx + 1, n, k);
  }

  lemma SliceIs(buf: seq<byte>, idx: nat, data: seq<byte>)
    requires At(buf, idx, data)
    ensures Slice(buf, idx, |data|) == data
  {
  }

  lemma IntTrip(h: Host, n: int, e: seq<byte>, buf: seq<byte>, idx: nat)
    requires PackInt(n) == Some(e) && At(buf, idx, e)
    ensures Unpack(h, buf, idx) == Ok(Int(n), idx + |e|)
  {
    Powers();
    if -0x20 <= n < 0x80 {
      AtByte(buf, idx, e);
    } else if n > 0 {
      TaggedReads(buf, idx, e[0], n, |e| - 1);
    } else {
      TaggedReads(buf, idx, e[0], Pow256(|e| - 1) + n, |e| - 1);
    }
  }

  lemma BinHeadReads(h: Host, n: nat, buf: seq<byte>, idx: nat)
    requires n < LIMIT32 && At(buf, idx, BinHead(n))
    ensures Unpack(h, buf, idx) == ReadBin(buf, idx + |BinHead(n)|, n)
  {
    Powers();
    TaggedReads(buf, idx, BinHead(n)[0], n, |BinHead(n)| - 1);
  }

  lemma BinTrip(h: Host, data: seq<byte>, buf: seq<byte>, idx: nat)
    requires |data| < LIMIT32 && At(buf, idx, BinHead(|data|) + data)
    ensures Unpack(h, buf, idx) == Ok(Bin(data), idx + |BinHead(|data|)| + |data|)
  {
    hide Unpack, BinHead;
    AtParts(buf, idx, BinHead(|data|), data);
    BinHeadReads(h, |data|, buf, idx);
    SliceIs(buf, idx + |BinHead(|data|)|, data);
  }

  lemma StrHeadReads(h: Host, n: nat, buf: seq<byte>, idx: nat)
    requires n < LIMIT32 && At(buf, idx, StrHead(n))
    ensures Unpack(h, buf, idx) == ReadText(h, buf, idx + |StrHead(n)|, n)
  {
    Powers();
    if n <= 0x1F {
      AtByte(buf, idx, StrHead(n));
    } else {
      TaggedReads(buf, idx, StrHead(n)[0], n, |StrHead(n)| - 1);
    }
  }

  lemma StrTrip(h: Host, text: seq<byte>, buf: seq<byte>, idx: nat)
    requires |text| < LIMIT32 && h.utf8(text) && At(buf, idx, StrHead(|text|) + text)
    ensures Unpack(h, buf, idx) == Ok(Str(text), idx + |StrHead(|text|)| + |text|)
  {
    hide Unpack, StrHead;
    AtParts(buf, idx, StrHead(|text|), text);
    StrHeadReads(h, |text|, buf, idx);
    SliceIs(buf, idx + |StrHead(|text|)|, text);
  }

  lemma FloatTrip(h: Host, bits: seq<byte>, buf: seq<byte>, idx: nat)
    requires |bits| == 8 && At(buf, idx, [0xCB] + bits)
    ensures Unpack(h, buf, idx) == Ok(Float(bits), idx + 9)
  {
    AtParts(buf, idx, [0xCB], bits);
    AtByte(buf, idx, [0xCB]);
  }

  lemma ArrHeadReads(h: Host, n: nat, buf: seq<byte>, idx: nat)
    requires n < LIMIT32 && At(buf, idx, ArrHead(n))
    ensures Unpack(h, buf, idx) == ReadArr(h, buf, idx + |ArrHead(n)|, n, [])
  {
    Powers();
    if n <= 0xF {
      AtByte(buf, idx, ArrHead(n));
    } else {
      TaggedReads(buf, idx, ArrHead(n)[0], n, |ArrHead(n)| - 1);
    }
  }

  lemma MapHeadReads(h: Host, n: nat, buf: seq<byte>, idx: nat)
    requires n < LIMIT32 && At(buf, idx, MapHead(n))
    ensures Unpack(h, buf, idx) == ReadMap(h, buf, idx + |MapHead(n)|, n, [])
  {
    Powers();
    if n <= 0xF {
      AtByte(buf, idx, MapHead(n));
    } else {
      TaggedReads(buf, idx, MapHead(n)[0], n, |MapHead(n)| - 1);
    }
  }

  lemma ExtHeadReads(h: Host, n: nat, buf: seq<byte>, idx: nat)
    requires 0 < n < LIMIT32 && At(buf, idx, ExtHead(n))
    ensures Unpack(h, buf, idx) == ReadExt(h, buf, idx + |ExtHead(n)|, n)
  {
    Powers();
    if n == 1 || n == 2 || n == 4 || n == 8 || n == 16 {
      AtByte(buf, idx, ExtHead(n));
    } else {
      TaggedReads(buf, idx, ExtHead(n)[0], n, |ExtHead(n)| - 1);
    }
  }

  // ---- containers ----

  /** Whether rebuilding the items from index `k` on succeeds. */
  predicate RestorableFrom(v: Value, k: nat)
    requires k <= |Items(v)|
    decreases |Items(v)| - k
  {
    k == |Items(v)| || (Restorable(Items(v)[k]) && RestorableFrom(v, k + 1))
  }

  lemma {:induction false} RestorableFromIs(v: Value, k: nat)
    requires k <= |Items(v)|
    ensures RestorableFrom(v, k) <==> forall i :: k <= i < |Items(v)| ==> Restorable(Items(v)[i])
    decreases |Items(v)| - k
  {
    if k < |Items(v)| {
      RestorableFromIs(v, k + 1);
    }
  }

  lemma ReadNone(h: Host, buf: seq<byte>, idx: nat, acc: seq<Value>)
    ensures ReadArr(h, buf, idx, 0, acc) == Ok(Arr(acc, false), idx)
  {
  }

  lemma ReadOne(h: Host, buf: seq<byte>, idx: nat, n: nat, acc: seq<Value>)
    requires n > 0
    ensures match Unpack(h, buf, idx)
            case Err(e) => ReadArr(h, buf, idx, n, acc) == Err(e)
            case Ok(v, next) => ReadArr(h, buf, idx, n, acc) == ReadArr(h, buf, next, n - 1, acc + [v])
  {
    hide Unpack;
  }

  lemma ItemValid(h: Host, v: Value, k: nat)
    requires Valid(h, v) && k < |Items(v)|
    ensures Valid(h, Items(v)[k]) && Items(v)[k] < v
  {
  }

  lemma {:induction false} ItemsTrip(h: Host, v: Value, k: nat, nest: int, e: seq<byte>, buf: seq<byte>, idx: nat, acc: seq<Value>)
    requires Valid(h, v) && k <= |Items(v)| && PackFrom(v, k, nest) == Some(e) && At(buf, idx, e)
    ensures ReadArr(h, buf, idx, |Items(v)| - k, acc)
         == if RestorableFrom(v, k) then Ok(Arr(acc + NormFrom(v, k), false), idx + |e|) else Err(BadType)
    decreases v, |Items(v)| - k
  {
    hide Unpack, Pack, At, Norm, Restorable, ReadArr, Valid;
    if k == |Items(v)| {
      assert acc + NormFrom(v, k) == acc;
      ReadNone(h, buf, idx, acc);
    } else {
      var x := Items(v)[k];
      ItemValid(h, v, k);
      ReadOne(h, buf, idx, |Items(v)| - k, acc);
      var head, tail := Pack(x, nest).value, PackFrom(v, k + 1, nest).value;
      AtParts(buf, idx, head, tail);
      Trip(h, x, nest, head, buf, idx);
      if Restorable(x) {
        ItemsTrip(h, v, k + 1, nest, tail, buf, idx + |head|, acc + [Norm(x)]);
        assert acc + NormFrom(v, k) == acc + [Norm(x)] + NormFrom(v, k + 1);
      }
    }
  }

  lemma ListTrip(h: Host, v: Value, nest: int, body: seq<byte>, buf: seq<byte>, idx: nat)
    requires Valid(h, v) && !v.Map? && |Items(v)| < LIMIT32 && PackFrom(v, 0, nest) == Some(body)
    requires At(buf, idx, ArrHead(|Items(v)|) + body)
    ensures Unpack(h, buf, idx)
         == if RestorableFrom(v, 0) then Ok(Arr(NormFrom(v, 0), false), idx + |ArrHead(|Items(v)|)| + |body|) else Err(BadType)
    decreases v, |Items(v)| + 1
  {
    hide Unpack, ReadArr, At, ArrHead, Valid, PackFrom;
    AtParts(buf, idx, ArrHead(|Items(v)|), body);
    ArrHeadReads(h, |Items(v)|, buf, idx);
    ItemsTrip(h, v, 0, nest, body, buf, idx + |ArrHead(|Items(v)|)|, []);
    assert [] + NormFrom(v, 0) == NormFrom(v, 0);
  }

  lemma DictTrip(h: Host, v: Value, nest: int, body: seq<byte>, buf: seq<byte>, idx: nat)
    requires Valid(h, v) && v.Map? && |v.items| % 2 == 0 && |v.items| / 2 < LIMIT32 && PackFrom(v, 0, nest) == Some(body)
    requires At(buf, idx, MapHead(|v.items| / 2) + body)
    ensures Unpack(h, buf, idx)
         == if PairsFrom(v, 0) then Ok(Map(NormFrom(v, 0)), idx + |MapHead(|v.items| / 2)| + |body|) else Err(BadType)
    decreases v, |Items(v)| + 1
  {
    hide Unpack, ReadMap, At, MapHead, Valid, PackFrom;
    AtParts(buf, idx, MapHead(|v.items| / 2), body);
    MapHeadReads(h, |v.items| / 2, buf, idx);
    PairsTrip(h, v, 0, nest, body, buf, idx + |MapHead(|v.items| / 2)|, []);
    assert [] + NormFrom(v, 0) == NormFrom(v, 0);
  }

  lemma ConstantTrip(h: Host, v: Value, nest: int, e: seq<byte>, buf: seq<byte>, idx: nat)
    requires (v.Nil? || v.Bool?) && Pack(v, nest) == Some(e) && At(buf, idx, e)
    ensures Unpack(h, buf, idx) == Ok(v, idx + 1) && |e| == 1
  {
    AtByte(buf, idx, e);
  }

  lemma ListRestorable(v: Value)
    requires !v.Map?
    ensures v.Arr? ==> (Restorable(v) <==> RestorableFrom(v, 0))
    ensures v.Set? ==> (Restorable(v) <==> RestorableFrom(v, 0) && forall i :: 0 <= i < |v.items| ==> !v.items[i].Arr?)
  {
    RestorableFromIs(v, 0);
    assert forall i :: 0 <= i < |Items(v)| ==> IsKey(v, i) == v.Set?;
  }

  lemma DictRestorable(v: Value)
    requires v.Map? && |v.items| % 2 == 0
    ensures Restorable(v) <==> PairsFrom(v, 0)
  {
    PairsFromIs(v, 0);
    assert forall i :: 0 <= i < |Items(v)| ==> Items(v)[i] == v.items[i] && IsKey(v, i) == (i % 2 == 0);
  }

  lemma ContainerPacks(v: Value, nest: int) returns (body: seq<byte>)
    requires (v.Arr? || v.Map? || v.Set?) && Pack(v, nest).Some?
    ensures PackFrom(v, 0, nest - 1) == Some(body) && ItemCount(v) < LIMIT32
    ensures v.Arr? ==> Pack(v, nest) == Some(ArrHead(|v.items|) + body)
    ensures v.Map? ==> Pack(v, nest) == Some(MapHead(|v.items| / 2) + body)
    ensures v.Set? ==> Pack(v, nest) == WrapSet(v.frozen, ArrHead(|v.items|) + body)
  {
    body := PackFrom(v, 0, nest - 1).value;
  }

  lemma ScalarTrip(h: Host, v: Value, nest: int, e: seq<byte>, buf: seq<byte>, idx: nat)
    requires Valid(h, v) && !(v.Arr? || v.Map? || v.Set?) && Pack(v, nest) == Some(e) && At(buf, idx, e)
    ensures Unpack(h, buf, idx) == Ok(v, idx + |e|)
  {
    hide Unpack, At;
    match v
    case Nil => ConstantTrip(h, v, nest, e, buf, idx);
    case Bool(_) => ConstantTrip(h, v, nest, e, buf, idx);
    case Int(n) => IntTrip(h, n, e, buf, idx);
    case Float(bits) => FloatTrip(h, bits, buf, idx);
    case Bin(data) => BinTrip(h, data, buf, idx);
    case Str(text) => StrTrip(h, text, buf, idx);
  }

  /** Decoding, wherever the bytes of a value stand and whatever follows them, yields the value and stops
      right behind it; only a tuple used as a key or member makes it fail, and it does so always. */
  lemma {:induction false} Trip(h: Host, v: Value, nest: int, e: seq<byte>, buf: seq<byte>, idx: nat)
    requires Valid(h, v) && Pack(v, nest) == Some(e) && At(buf, idx, e)
    ensures Unpack(h, buf, idx) == Expected(v, idx + |e|)
    decreases v
  {
    hide Unpack, At, Pack, PackFrom, ArrHead, MapHead, Restorable;
    if v.Arr? {
      var body := ContainerPacks(v, nest);
      ListTrip(h, v, nest - 1, body, buf, idx);
      ListRestorable(v);
    } else if v.Map? {
      var body := ContainerPacks(v, nest);
      DictTrip(h, v, nest - 1, body, buf, idx);
      DictRestorable(v);
    } else if v.Set? {
      var body := ContainerPacks(v, nest);
      SetTrip(h, v, nest, body, e, buf, idx);
    } else {
      ScalarTrip(h, v, nest, e, buf, idx);
      ScalarRestorable(v);
    }
  }

  lemma ScalarRestorable(v: Value)
    requires !(v.Arr? || v.Map? || v.Set?)
    ensures Restorable(v) && Norm(v) == v
  {
  }

  /** Whether rebuilding the entries from index `k` on succeeds. */
  predicate PairsFrom(v: Value, k: nat)
    requires v.Map? && |v.items| % 2 == 0 && k % 2 == 0 && k <= |v.items|
    decreases |v.items| - k
  {
    k == |v.items| || (Restorable(v.items[k]) && Restorable(v.items[k + 1]) && !v.items[k].Arr? && PairsFrom(v, k + 2))
  }

  lemma {:induction false} PairsFromIs(v: Value, k: nat)
    requires v.Map? && |v.items| % 2 == 0 && k % 2 == 0 && k <= |v.items|
    ensures PairsFrom(v, k) <==>
      forall i :: k <= i < |v.items| ==> Restorable(v.items[i]) && (i % 2 == 0 ==> !v.items[i].Arr?)
    decreases |v.items| - k
  {
    hide Restorable;
    if k < |v.items| {
      PairsFromIs(v, k + 2);
    }
  }

  /** The entries already stored: key, value, …, as they were. */
  ghost predicate Stored(v: Value, acc: seq<Value>, k: nat) {
    v.Map? && |acc| == k <= |v.items| && forall i :: 0 <= i < k && i % 2 == 0 ==> acc[i] == v.items[i]
  }

  lemma {:induction false} KeyIsNew(h: Host, v: Value, acc: seq<Value>, k: nat, from: nat)
    requires Valid(h, v) && Stored(v, acc, k) && k < |v.items| && k % 2 == 0 && from % 2 == 0 && from <= k
    ensures FindKey(h, acc, v.items[k], from) == k
    decreases k - from
  {
    if from < k {
      assert IsKey(v, from) && IsKey(v, k) && !h.eq(Items(v)[from], Items(v)[k]);
      KeyIsNew(h, v, acc, k, from + 2);
    }
  }

  lemma PackTwo(v: Value, k: nat, nest: int) returns (e0: seq<byte>, e1: seq<byte>, tail: seq<byte>)
    requires k + 2 <= |Items(v)| && PackFrom(v, k, nest).Some?
    ensures Pack(Items(v)[k], nest) == Some(e0) && Pack(Items(v)[k + 1], nest) == Some(e1)
    ensures PackFrom(v, k + 2, nest) == Some(tail) && PackFrom(v, k, nest) == Some(e0 + (e1 + tail))
  {
    hide Pack;
    assert PackFrom(v, k + 1, nest).Some?;
    e0, e1, tail := Pack(Items(v)[k], nest).value, Pack(Items(v)[k + 1], nest).value, PackFrom(v, k + 2, nest).value;
  }

  lemma NormTwo(v: Value, k: nat, acc: seq<Value>)
    requires k + 2 <= |Items(v)|
    ensures acc + NormFrom(v, k) == acc + [Norm(Items(v)[k]), Norm(Items(v)[k + 1])] + NormFrom(v, k + 2)
  {
    hide Norm;
    assert NormFrom(v, k) == [Norm(Items(v)[k])] + ([Norm(Items(v)[k + 1])] + NormFrom(v, k + 2));
  }

  /** One entry: an unhashable key fails it, otherwise it is stored behind the others. */
  lemma PairRead(h: Host, v: Value, k: nat, nest: int, e0: seq<byte>, e1: seq<byte>, buf: seq<byte>, idx: nat, acc: seq<Value>)
    requires Valid(h, v) && v.Map? && k % 2 == 0 && k + 2 <= |v.items| && Stored(v, acc, k) && |v.items| % 2 == 0
    requires Unpack(h, buf, idx) == Expected(v.items[k], idx + |e0|)
    requires Unpack(h, buf, idx + |e0|) == Expected(v.items[k + 1], idx + |e0| + |e1|)
    ensures ReadMap(h, buf, idx, (|v.items| - k) / 2, acc)
         == if Restorable(v.items[k]) && Restorable(v.items[k + 1]) && !v.items[k].Arr?
            then ReadMap(h, buf, idx + |e0| + |e1|, (|v.items| - k - 2) / 2, acc + [v.items[k], Norm(v.items[k + 1])])
            else Err(BadType)
    ensures Restorable(v.items[k]) && !v.items[k].Arr? ==> Norm(v.items[k]) == v.items[k]
  {
    hide Unpack, Restorable, Norm;
    var key := v.items[k];
    assert key == Items(v)[k] && IsKey(v, k);
    KeyHashable(h, v, k);
    NormHashable(key);
    if Restorable(key) && !key.Arr? {
      NormPlain(h, key);
      KeyIsNew(h, v, acc, k, 0);
    }
  }

  lemma KeyHashable(h: Host, v: Value, k: nat)
    requires Valid(h, v) && k < |Items(v)| && IsKey(v, k)
    ensures Hashable(Items(v)[k]) && Valid(h, Items(v)[k])
  {
  }

  lemma NoMorePairs(h: Host, v: Value, nest: int, buf: seq<byte>, idx: nat, acc: seq<Value>)
    requires v.Map? && |acc| % 2 == 0
    ensures ReadMap(h, buf, idx, 0, acc) == Ok(Map(acc + NormFrom(v, |v.items|)), idx)
    ensures PackFrom(v, |v.items|, nest) == Some([])
  {
    assert acc + NormFrom(v, |v.items|) == acc;
  }

  lemma {:induction false} PairsTrip(h: Host, v: Value, k: nat, nest: int, e: seq<byte>, buf: seq<byte>, idx: nat, acc: seq<Value>)
    requires Valid(h, v) && v.Map? && |v.items| % 2 == 0 && k % 2 == 0 && Stored(v, acc, k)
    requires PackFrom(v, k, nest) == Some(e) && At(buf, idx, e)
    ensures ReadMap(h, buf, idx, (|v.items| - k) / 2, acc)
         == if PairsFrom(v, k) then Ok(Map(acc + NormFrom(v, k)), idx + |e|) else Err(BadType)
    decreases v, |v.items| - k
  {
    hide Unpack, Pack, At, Norm, Restorable, ReadMap, PackFrom, NormFrom;
    if k == |v.items| {
      NoMorePairs(h, v, nest, buf, idx, acc);
    } else {
      var e0, e1, tail := PackTwo(v, k, nest);
      ItemsValid(h, v, k);
      AtParts(buf, idx, e0, e1 + tail);
      AtParts(buf, idx + |e0|, e1, tail);
      Trip(h, v.items[k], nest, e0, buf, idx);
      Trip(h, v.items[k + 1], nest, e1, buf, idx + |e0|);
      PairRead(h, v, k, nest, e0, e1, buf, idx, acc);
      if Restorable(v.items[k]) && Restorable(v.items[k + 1]) && !v.items[k].Arr? {
        PairsTrip(h, v, k + 2, nest, tail, buf, idx + |e0| + |e1|, acc + [v.items[k], Norm(v.items[k + 1])]);
        NormTwo(v, k, acc);
      }
    }
  }

  lemma ItemsValid(h: Host, v: Value, k: nat)
    requires Valid(h, v) && v.Map? && k + 2 <= |v.items|
    ensures Valid(h, v.items[k]) && Valid(h, v.items[k + 1])
  {
    assert v.items[k] == Items(v)[k] && v.items[k + 1] == Items(v)[k + 1];
  }

  predicate NoArr(items: seq<Value>, k: nat)
    requires k <= |items|
    decreases |items| - k
  {
    k == |items| || (!items[k].Arr? && NoArr(items, k + 1))
  }

  lemma {:induction false} NoArrIs(items: seq<Value>, k: nat)
    requires k <= |items|
    ensures NoArr(items, k) <==> forall i :: k <= i < |items| ==> !items[i].Arr?
    decreases |items| - k
  {
    if k < |items| {
      NoArrIs(items, k + 1);
    }
  }

  /** A member read back: a list cannot be hashed, anything else is as it was and not yet there. */
  lemma MemberRead(h: Host, v: Value, k: nat, acc: seq<Value>)
    requires Valid(h, v) && v.Set? && k < |v.items| && acc == v.items[..k] && RestorableFrom(v, 0)
    ensures Hashable(Norm(v.items[k])) <==> !v.items[k].Arr?
    ensures !v.items[k].Arr? ==> Norm(v.items[k]) == v.items[k] && AddMember(h, acc, v.items[k]) == v.items[..k + 1]
  {
    hide Norm, Restorable;
    var x := v.items[k];
    assert IsKey(v, k) && x == Items(v)[k];
    KeyHashable(h, v, k);
    NormHashable(x);
    if !x.Arr? {
      RestorableAt(v, k);
      NormPlain(h, x);
      forall i | 0 <= i < k ensures !h.eq(acc[i], x) {
        assert IsKey(v, i) && !h.eq(Items(v)[i], Items(v)[k]);
      }
      assert acc + [x] == v.items[..k + 1];
    }
  }

  lemma {:induction false} MembersAreNew(h: Host, v: Value, k: nat, acc: seq<Value>)
    requires Valid(h, v) && v.Set? && k <= |v.items| && acc == v.items[..k] && RestorableFrom(v, 0)
    ensures Collect(h, NormFrom(v, 0), k, acc) == if NoArr(v.items, k) then Some(v.items) else None
    decreases |v.items| - k
  {
    hide Norm, Restorable, RestorableFrom, Valid, Hashable;
    if k < |v.items| {
      assert NormFrom(v, 0)[k] == Norm(v.items[k]);
      MemberRead(h, v, k, acc);
      if !v.items[k].Arr? {
        MembersAreNew(h, v, k + 1, v.items[..k + 1]);
      }
    } else {
      assert acc == v.items;
    }
  }

  lemma RestorableAt(v: Value, k: nat)
    requires k < |Items(v)| && RestorableFrom(v, 0)
    ensures Restorable(Items(v)[k])
  {
    RestorableFromIs(v, 0);
  }

  /** The wrapped payload is read as one array, whose items become the members. */
  lemma WrappedReads(h: Host, frozen: bool, payload: seq<byte>, e: seq<byte>, buf: seq<byte>, idx: nat)
    requires |payload| > 0 && WrapSet(frozen, payload) == Some(e) && At(buf, idx, e)
    ensures |e| == |ExtHead(|payload|)| + 1 + |payload| && At(buf, idx + |e| - |payload|, payload)
    ensures Unpack(h, buf, idx) == AsSet(h, Unpack(h, buf, idx + |e| - |payload|), frozen, idx + |e|)
  {
    hide Unpack, At, ExtHead;
    var head, code := ExtHead(|payload|), [if frozen then EXT_FROZENSET else EXT_SET];
    AtParts(buf, idx, head + code, payload);
    AtParts(buf, idx, head, code);
    AtByte(buf, idx + |head|, code);
    ExtHeadReads(h, |payload|, buf, idx);
  }

  /** The members read back make the same set, unless one of them came back as a list. */
  lemma SetMade(h: Host, v: Value)
    requires Valid(h, v) && v.Set? && RestorableFrom(v, 0)
    ensures MakeSet(h, Arr(NormFrom(v, 0), false), v.frozen) == if Restorable(v) then Some(Norm(v)) else None
  {
    hide Valid, Restorable, RestorableFrom, Collect, NormFrom, Norm;
    assert v.items[..0] == [];
    MembersAreNew(h, v, 0, []);
    NoArrIs(v.items, 0);
    ListRestorable(v);
    if Restorable(v) {
      SetPlain(h, v);
    }
  }

  lemma {:induction false} SetTrip(h: Host, v: Value, nest: int, body: seq<byte>, e: seq<byte>, buf: seq<byte>, idx: nat)
    requires Valid(h, v) && v.Set? && PackFrom(v, 0, nest - 1) == Some(body) && |v.items| < LIMIT32
    requires WrapSet(v.frozen, ArrHead(|v.items|) + body) == Some(e) && At(buf, idx, e)
    ensures Unpack(h, buf, idx) == Expected(v, idx + |e|)
    decreases v, |v.items| + 2
  {
    hide Unpack, At, ArrHead, PackFrom, Restorable, WrapSet, NormFrom, Norm, MakeSet, Valid, RestorableFrom;
    WrappedReads(h, v.frozen, ArrHead(|v.items|) + body, e, buf, idx);
    ListTrip(h, v, nest - 1, body, buf, idx + |e| - |ArrHead(|v.items|) + body|);
    ListRestorable(v);
    if RestorableFrom(v, 0) {
      SetMade(h, v);
    }
  }

  lemma SetPlain(h: Host, v: Value)
    requires Valid(h, v) && v.Set? && Restorable(v)
    ensures Norm(v) == v
  {
    forall i | 0 <= i < |v.items| ensures Norm(v.items[i]) == v.items[i] {
      assert Items(v)[i] == v.items[i] && IsKey(v, i);
      NormPlain(h, v.items[i]);
    }
    assert NormFrom(v, 0) == v.items;
  }

  /** A set whose only member is the empty tuple is encoded in four bytes, and cannot be decoded. */
  lemma TupleMember(h: Host)
    ensures var v, e := Set([Arr([], true)], false), [0xD5, 123, 0x91, 0x90];
      Valid(h, v) && Pack(v, NEST_LIMIT) == Some(e) && Unpack(h, e, 0) == Err(BadType)
  {
    var m := Arr([], true);
    var v, e := Set([m], false), [0xD5, 123, 0x91, 0x90];
    assert Items(m) == [] && Items(v) == [m];
    assert Valid(h, m) && IsKey(v, 0);
    assert PackFrom(m, 0, NEST_LIMIT - 2) == Some([]);
    assert [0x90] + [] == [0x90];
    assert Pack(m, NEST_LIMIT - 1) == Some([0x90]);
    assert PackFrom(v, 1, NEST_LIMIT - 1) == Some([]);
    assert PackFrom(v, 0, NEST_LIMIT - 1) == Some([0x90]);
    assert Pack(v, NEST_LIMIT) == WrapSet(false, [0x91] + [0x90]);
    assert [0xD5] + [EXT_SET] + ([0x91] + [0x90]) == e;
    Trip(h, v, NEST_LIMIT, e, e, 0);
  }

  // ---- the nesting limit ----

  /** How many containers stand around the innermost value. */
  function Depth(v: Value): nat
    decreases v
  {
    if Items(v) == [] then 0 else 1 + DepthFrom(v, 0)
  }

  function DepthFrom(v: Value, k: nat): nat
    requires k <= |Items(v)|
    decreases v, |Items(v)| - k
  {
    if k == |Items(v)| then 0
    else
      var a, b := Depth(Items(v)[k]), DepthFrom(v, k + 1);
      if a >= b then a else b
  }

  /** Values nested deeper than the limit are refused. */
  lemma {:induction false} TooDeep(v: Value, nest: int)
    requires nest < Depth(v)
    ensures Pack(v, nest) == None
    decreases v
  {
    if nest >= 0 {
      TooDeepFrom(v, 0, nest - 1);
    }
  }

  lemma {:induction false} TooDeepFrom(v: Value, k: nat, nest: int)
    requires k < |Items(v)| && nest < DepthFrom(v, k)
    ensures PackFrom(v, k, nest) == None
    decreases v, |Items(v)| - k
  {
    hide Pack, Depth;
    if nest < Depth(Items(v)[k]) {
      TooDeep(Items(v)[k], nest);
    } else {
      TooDeepFrom(v, k + 1, nest);
    }
  }

  /** All others are encoded the same whatever the limit, sets counting as one level although they are wrapped. */
  lemma {:induction false} NestingIsFree(v: Value, a: int, b: int)
    requires a >= Depth(v) && b >= Depth(v)
    ensures Pack(v, a) == Pack(v, b)
    decreases v
  {
    if Items(v) != [] {
      NestingIsFreeFrom(v, 0, a - 1, b - 1);
    }
  }

  lemma {:induction false} NestingIsFreeFrom(v: Value, k: nat, a: int, b: int)
    requires k <= |Items(v)| && a >= DepthFrom(v, k) && b >= DepthFrom(v, k)
    ensures PackFrom(v, k, a) == PackFrom(v, k, b)
    decreases v, |Items(v)| - k
  {
    hide Pack, Depth;
    if k < |Items(v)| {
      NestingIsFree(Items(v)[k], a, b);
      NestingIsFreeFrom(v, k + 1, a, b);
    }
  }

  // ---- nothing shorter would do ----

  lemma {:induction false} ArrayRead(h: Host, buf: seq<byte>, idx: nat, n: nat, acc: seq<Value>)
    ensures var r := ReadArr(h, buf, idx, n, acc); r.Ok? ==> r.value.Arr?
    decreases Rest(buf, idx), n
  {
    hide Unpack;
    if n > 0 {
      var r := Unpack(h, buf, idx);
      if r.Ok? {
        ArrayRead(h, buf, r.next, n - 1, acc + [r.value]);
      }
    }
  }

  lemma {:induction false} MapRead(h: Host, buf: seq<byte>, idx: nat, n: nat, acc: seq<Value>)
    requires |acc| % 2 == 0
    ensures var r := ReadMap(h, buf, idx, n, acc); r.Ok? ==> r.value.Map?
    decreases Rest(buf, idx), n
  {
    hide Unpack, PutPair;
    if n > 0 {
      var key := Unpack(h, buf, idx);
      if key.Ok? {
        var val := Unpack(h, buf, key.next);
        if val.Ok? && Hashable(key.value) {
          MapRead(h, buf, val.next, n - 1, PutPair(h, acc, key.value, val.value));
        }
      }
    }
  }

  /** Only a scalar header byte leads to a scalar. */
  lemma ScalarRead(h: Host, e: seq<byte>)
    requires |e| > 0 && Unpack(h, e, 0).Ok? && !(Unpack(h, e, 0).value.Arr? || Unpack(h, e, 0).value.Map? || Unpack(h, e, 0).value.Set?)
    ensures KindOf(e[0] as nat) == Scalar && Unpack(h, e, 0) == ReadScalar(h, e, 1, e[0] as nat)
  {
    var b := e[0] as nat;
    if KindOf(b) != Scalar {
      var c := ReadCount(e, 1, b);
      if KindOf(b) == Sequence {
        ArrayRead(h, e, c.next, c.value, []);
      } else if KindOf(b) == Mapping {
        MapRead(h, e, c.next, c.value, []);
      }
    }
  }

  /** No bytes that decode to an integer are fewer than those it is encoded in. */
  lemma IntShortest(h: Host, e: seq<byte>, n: int)
    requires Unpack(h, e, 0) == Ok(Int(n), |e|)
    ensures PackInt(n).Some? && |PackInt(n).value| <= |e|
  {
    hide Unpack, Pow256, BeAt;
    NoneFromNothing(h, e);
    ScalarRead(h, e);
    Powers();
  }

  lemma NoneFromNothing(h: Host, e: seq<byte>)
    requires Unpack(h, e, 0).Ok?
    ensures |e| > 0
  {
  }

  /** The same for binary data and for text. */
  lemma BytesShortest(h: Host, e: seq<byte>, data: seq<byte>)
    requires Unpack(h, e, 0) == Ok(Bin(data), |e|)
    ensures |BinHead(|data|)| + |data| <= |e|
  {
    hide Unpack, Pow256, BeAt;
    NoneFromNothing(h, e);
    ScalarRead(h, e);
    Powers();
  }

  lemma TextShortest(h: Host, e: seq<byte>, text: seq<byte>)
    requires Unpack(h, e, 0) == Ok(Str(text), |e|)
    ensures |StrHead(|text|)| + |text| <= |e|
  {
    hide Unpack, Pow256, BeAt;
    NoneFromNothing(h, e);
    ScalarRead(h, e);
    Powers();
  }

  /** And no header of a container or an extension that announces a count is shorter than the one written for it. */
  lemma CountShortest(buf: seq<byte>, idx: nat, n: nat, next: nat)
    requires idx < |buf| && KindOf(buf[idx] as nat) != Scalar
    requires ReadCount(buf, idx + 1, buf[idx] as nat) == Ok(n, next)
    ensures KindOf(buf[idx] as nat) == Sequence ==> idx + |ArrHead(n)| <= next
    ensures KindOf(buf[idx] as nat) == Mapping ==> idx + |MapHead(n)| <= next
    ensures KindOf(buf[idx] as nat) == Extension ==> idx + |ExtHead(n)| <= next
  {
    hide Pow256, BeAt;
    Powers();
  }

  // ---- on the wire ----

  lemma {:induction false} SameItems(v: Value, w: Value, k: nat, nest: int)
    requires Items(v) == Items(w) && k <= |Items(v)|
    ensures PackFrom(v, k, nest) == PackFrom(w, k, nest)
    decreases |Items(v)| - k
  {
    hide Pack;
    if k < |Items(v)| {
      SameItems(v, w, k + 1, nest);
    }
  }

  /** A set is encoded as an extension whose payload is the encoding of its members as an array: of type 123, or of
      type 124 when it is frozen. */
  lemma SetOnWire(items: seq<Value>, frozen: bool, nest: int)
    ensures Pack(Set(items, frozen), nest) ==
      match Pack(Arr(items, false), nest)
      case None => None
      case Some(p) => if |p| < 0x1_0000_0000 then Some(ExtHead(|p|) + [if frozen then 124 else 123] + p) else None
  {
    hide ExtHead;
    var v, w := Set(items, frozen), Arr(items, false);
    SameItems(v, w, 0, nest - 1);
  }

  lemma BeBytes(n: nat)
    ensures n < 0x100 ==> Be(n, 1) == [n as byte]
    ensures n < 0x1_0000 ==> Be(n, 2) == [(n / 0x100) as byte, (n % 0x100) as byte]
  {
    assert Be(n, 1) == Be(n / 256, 0) + [(n % 256) as byte];
    assert Be(n / 256, 1) == Be(n / 256 / 256, 0) + [(n / 256 % 256) as byte];
  }

  /** The header bytes of the MessagePack specification: scalars. */
  lemma ScalarBytes(bits: seq<byte>)
    ensures Pack(Nil, 0) == Some([0xC0]) && Pack(Bool(false), 0) == Some([0xC2]) && Pack(Bool(true), 0) == Some([0xC3])
    ensures Pack(Int(7), 0) == Some([0x07]) && Pack(Int(-1), 0) == Some([0xFF])
    ensures Pack(Int(200), 0) == Some([0xCC, 0xC8]) && Pack(Int(-100), 0) == Some([0xD0, 0x9C])
    ensures Pack(Int(0x1234), 0) == Some([0xCD, 0x12, 0x34]) && Pack(Int(-0x1000), 0) == Some([0xD1, 0xF0, 0x00])
    ensures Pack(Int(0x1_0000), 0) == Some([0xCE] + Be(0x1_0000, 4))
    ensures Pack(Int(-0x8001), 0) == Some([0xD2] + Be(0xFFFF_7FFF, 4))
    ensures Pack(Int(0x1_0000_0000), 0) == Some([0xCF] + Be(0x1_0000_0000, 8))
    ensures Pack(Int(-0x8000_0001), 0) == Some([0xD3] + Be(0xFFFF_FFFF_7FFF_FFFF, 8))
    ensures Pack(Float(bits), 0) == Some([0xCB] + bits)
  {
    hide Be;
    BeBytes(200);
    BeBytes(0x9C);
    BeBytes(0x1234);
    BeBytes(0xF000);
    assert [0xCC] + [200 as byte] == [0xCC, 0xC8] && [0xD0] + [0x9C as byte] == [0xD0, 0x9C];
    assert [0xCD] + [0x12 as byte, 0x34 as byte] == [0xCD, 0x12, 0x34];
    assert [0xD1] + [0xF0 as byte, 0x00 as byte] == [0xD1, 0xF0, 0x00];
  }

  /** The header bytes of the MessagePack specification: everything that announces a length. */
  lemma HeaderBytes(n: nat)
    requires n < 0x1_0000_0000
    ensures n < 32 ==> StrHead(n) == [(0xA0 + n) as byte]
    ensures n < 16 ==> ArrHead(n) == [(0x90 + n) as byte] && MapHead(n) == [(0x80 + n) as byte]
    ensures |BinHead(n)| > 0 && BinHead(n)[0] in {0xC4, 0xC5, 0xC6}
    ensures |StrHead(n)| > 1 ==> StrHead(n)[0] in {0xD9, 0xDA, 0xDB}
    ensures |ArrHead(n)| > 1 ==> ArrHead(n)[0] in {0xDC, 0xDD}
    ensures |MapHead(n)| > 1 ==> MapHead(n)[0] in {0xDE, 0xDF}
    ensures |ExtHead(n)| > 0 && ExtHead(n)[0] in {0xC7, 0xC8, 0xC9, 0xD4, 0xD5, 0xD6, 0xD7, 0xD8}
    ensures ExtHead(1) == [0xD4] && ExtHead(2) == [0xD5] && ExtHead(4) == [0xD6] && ExtHead(8) == [0xD7] && ExtHead(16) == [0xD8]
    ensures BinHead(0x100)[0] == 0xC5 && BinHead(0x1_0000)[0] == 0xC6 && StrHead(0x100)[0] == 0xDA && StrHead(0x1_0000)[0] == 0xDB
    ensures ArrHead(0x1_0000)[0] == 0xDD && MapHead(0x1_0000)[0] == 0xDF && ExtHead(0x100)[0] == 0xC8 && ExtHead(0x1_0000)[0] == 0xC9
  {
  }

  /** What is wrong with bytes that are no value: they end too soon, or a header or extension is unknown. */
  lemma WrongBytes(h: Host)
    ensures Unpack(h, [], 0) == Err(Truncated) && Unpack(h, [0xCC], 0) == Err(Truncated) && Unpack(h, [0xD9], 0) == Err(Truncated)
    ensures Unpack(h, [0x91], 0) == Err(Truncated) && Unpack(h, [0x81, 0xC0], 0) == Err(Truncated) && Unpack(h, [0xD4], 0) == Err(Truncated)
    ensures Unpack(h, [0xC1], 0) == Err(Invalid) && Unpack(h, [0xD4, 1, 0xC0], 0) == Err(Invalid)
  {
    assert Unpack(h, [0x91], 1) == Err(Truncated);
    assert Unpack(h, [0x81, 0xC0], 1) == Ok(Nil, 2) && Unpack(h, [0x81, 0xC0], 2) == Err(Truncated);
    assert ReadMap(h, [0x81, 0xC0], 1, 1, []) == Err(Truncated);
    assert ReadArr(h, [0x91], 1, 1, []) == Err(Truncated);
  }

  /** An entry read into a map is found under its key from then on, and no other entry moves or changes. */
  lemma LastValueWins(h: Host, flat: seq<Value>, key: Value, val: Value)
    requires |flat| % 2 == 0 && h.eq(key, key)
    ensures var r := PutPair(h, flat, key, val); var k := FindKey(h, flat, key, 0);
      && k + 1 < |r| && h.eq(r[k], key) && r[k + 1] == val
      && (forall i :: 0 <= i < |flat| && i != k + 1 ==> r[i] == flat[i])
      && |r| == (if k < |flat| then |flat| else |flat| + 2)
  {
    FoundKey(h, flat, key, 0);
  }

  lemma {:induction false} FoundKey(h: Host, flat: seq<Value>, key: Value, k: nat)
    requires |flat| % 2 == 0 && k % 2 == 0 && k <= |flat|
    ensures FindKey(h, flat, key, k) < |flat| ==> h.eq(flat[FindKey(h, flat, key, k)], key)
    decreases |flat| - k
  {
    if k < |flat| && !h.eq(flat[k], key) {
      FoundKey(h, flat, key, k + 2);
    }
  }

  /** Values up to 1024 levels deep are accepted, and no deeper ones. */
  lemma DepthAllowed(v: Value)
    ensures Pack(v, NEST_LIMIT) == if Depth(v) <= 1024 then Pack(v, Depth(v)) else None
  {
    if Depth(v) <= 1024 {
      NestingIsFree(v, NEST_LIMIT, Depth(v));
    } else {
      TooDeep(v, NEST_LIMIT);
    }
  }

  /** What may be a key or a member: everything that holds no other values, tuples of such, and frozen sets. */
  lemma KeysMayBe(v: Value)
    ensures !(v.Arr? || v.Map? || v.Set?) ==> Hashable(v)
    ensures v.Set? ==> (Hashable(v) <==> v.frozen)
    ensures v.Arr? ==> (Hashable(v) <==> v.tuple && forall i :: 0 <= i < |v.items| ==> Hashable(v.items[i]))
    ensures v.Map? ==> !Hashable(v)
  {
  }

  /** A set with a frozen set in it comes back. */
  lemma FrozenMember(h: Host)
    ensures var v, e := Set([Set([], true)], false), [0xD6, 123, 0x91, 0xD4, 124, 0x90];
      Valid(h, v) && Pack(v, NEST_LIMIT) == Some(e) && Unpack(h, e, 0) == Ok(v, 6)
  {
    var m := Set([], true);
    var v, e := Set([m], false), [0xD6, 123, 0x91, 0xD4, 124, 0x90];
    assert Items(m) == [] && Items(v) == [m];
    assert Valid(h, m) && IsKey(v, 0) && Restorable(m) && Restorable(v);
    assert PackFrom(m, 0, NEST_LIMIT - 2) == Some([]);
    assert [0x90] + [] == [0x90] && [0xD4] + [124] + [0x90] == [0xD4, 124, 0x90];
    assert Pack(m, NEST_LIMIT - 1) == Some([0xD4, 124, 0x90]);
    assert PackFrom(v, 1, NEST_LIMIT - 1) == Some([]);
    assert [0xD4, 124, 0x90] + [] == [0xD4, 124, 0x90];
    assert PackFrom(v, 0, NEST_LIMIT - 1) == Some([0xD4, 124, 0x90]);
    assert Pack(v, NEST_LIMIT) == WrapSet(false, [0x91] + [0xD4, 124, 0x90]);
    assert [0xD6] + [123] + ([0x91] + [0xD4, 124, 0x90]) == e;
    Trip(h, v, NEST_LIMIT, e, e, 0);
    SetPlain(h, v);
  }
}
