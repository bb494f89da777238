/** Giving dead space back: peeling it off the file ends, gluing neighbours, growing the records in front of it. */
module Recycle {
  import opened Bytes
  import opened Rows
  import opened Index

  // ---- dead rows in file order ----

  predicate After(a: Row, b: Row) {
    a.fileId > b.fileId || (a.fileId == b.fileId && a.offset >= b.offset)
  }

  predicate Descending(rows: seq<Row>) {
    forall i, j :: 0 <= i < j < |rows| ==> After(rows[i], rows[j])
  }

  function Insert(r: Row, rows: seq<Row>): seq<Row> {
    if rows == [] || After(r, rows[0]) then [r] + rows else [rows[0]] + Insert(r, rows[1..])
  }

  /** The dead rows that own bytes, from the highest extent of the last file down. */
  function SortedDead(rows: seq<Row>): seq<Row> {
    if rows == [] then []
    else if rows[0].rowSize > 0 then Insert(rows[0], SortedDead(rows[1..]))
    else SortedDead(rows[1..])
  }

  lemma {:induction false} InsertSorts(r: Row, rows: seq<Row>)
    requires Descending(rows)
    ensures Descending(Insert(r, rows)) && |Insert(r, rows)| == |rows| + 1
    ensures forall x :: x in Insert(r, rows) <==> x == r || x in rows
  {
    if rows != [] && !After(r, rows[0]) {
      InsertSorts(r, rows[1..]);
      assert forall x :: x in rows[1..] ==> After(rows[0], x);
    }
  }

  lemma {:induction false} InsertExtents(r: Row, rows: seq<Row>)
    ensures Extents(Insert(r, rows)) == Owned(r) + Extents(rows)
  {
    if rows == [] || After(r, rows[0]) {
      ExtentsFront(r, rows);
    } else {
      InsertExtents(r, rows[1..]);
      ExtentsFront(rows[0], Insert(r, rows[1..]));
      assert rows == [rows[0]] + rows[1..];
      ExtentsFront(rows[0], rows[1..]);
      Regroup(Owned(rows[0]), Owned(r), Extents(rows[1..]));
      Regroup(Owned(r), Owned(rows[0]), Extents(rows[1..]));
    }
  }

  lemma {:induction false} SortedDeadIs(rows: seq<Row>)
    ensures Descending(SortedDead(rows)) && |SortedDead(rows)| <= |rows|
    ensures Extents(SortedDead(rows)) == Extents(rows)
    ensures forall r :: r in SortedDead(rows) <==> r in rows && r.rowSize > 0
  {
    if rows != [] {
      SortedDeadIs(rows[1..]);
      assert rows == [rows[0]] + rows[1..];
      ExtentsFront(rows[0], rows[1..]);
      if rows[0].rowSize > 0 {
        InsertSorts(rows[0], SortedDead(rows[1..]));
        InsertExtents(rows[0], SortedDead(rows[1..]));
      } else {
        assert Owned(rows[0]) + Extents(rows[1..]) == Extents(rows[1..]);
      }
    }
  }

  // ---- peeling dead extents off the file ends ----

  /** Every file is what it was, possibly cut short. */
  ghost predicate CutShort(files: Files, less: Files) {
    less.Keys == files.Keys && forall f :: f in files ==> less[f] <= files[f]
  }

  /** No dead extent reaches the end of its file. */
  ghost predicate Buried(dead: seq<Row>, files: Files) {
    forall r :: r in dead ==> r.fileId in files && r.offset + r.rowSize < |files[r.fileId]|
  }

  function Truncate(files: Files, f: nat, size: nat): Files
    requires f in files
  {
    files[f := files[f][..Min(size, |files[f]|)]]
  }

  /** All extents, live and dead: those kept so far and those still to look at. */
  ghost predicate AllTiled(live: multiset<Extent>, kept: seq<Row>, rest: seq<Row>, files: Files) {
    Tiled(live + Extents(kept) + Extents(rest), SizesOf(files))
  }

  /** A record owns bytes behind this extent. */
  ghost predicate LiveBehind(live: multiset<Extent>, r: Row) {
    exists e :: e in live && e.file == r.fileId && e.start >= r.offset + r.rowSize
  }

  /** Behind an extent that reaches the end of its file lies nothing. */
  lemma CutHasNone(live: multiset<Extent>, kept: seq<Row>, dead: seq<Row>, i: nat, files: Files)
    requires i < |dead| && Descending(dead) && (forall r :: r in kept ==> r in dead[..i])
    requires forall r :: r in dead ==> r.rowSize > 0
    requires AllTiled(live, kept, dead[i..], files) && Buried(kept, files) && dead[i].fileId in files
    requires dead[i].offset + dead[i].rowSize >= |files[dead[i].fileId]|
    ensures !LiveBehind(live, dead[i]) && dead[i] !in kept
    ensures dead[..i + 1] == dead[..i] + [dead[i]]
  {
    forall e | e in live && e.file == dead[i].fileId ensures e.start < dead[i].offset + dead[i].rowSize {
      assert e in live + Extents(kept) + Extents(dead[i..]);
      assert Inside(e, SizesOf(files));
    }
    forall k | k in kept ensures k != dead[i] {
      KeptElsewhere(live, kept, dead, i, files, k);
    }
  }

  /** In descending order nothing still to look at starts behind the extent at hand. */
  lemma RestBefore(dead: seq<Row>, i: nat)
    requires i < |dead| && Descending(dead)
    ensures forall x :: x in Extents(dead[i..]) && x.file == dead[i].fileId ==> x.start <= dead[i].offset
  {
    forall x | x in Extents(dead[i..]) && x.file == dead[i].fileId ensures x.start <= dead[i].offset {
      var k := ExtentsFrom(dead[i..], x, |dead[i..]|);
      assert dead[i..][k] == dead[i + k];
      assert k > 0 ==> After(dead[i], dead[i + k]);
    }
  }

  /** Behind an extent that does not, the byte right behind it belongs to a record, or to a dead extent kept before. */
  lemma KeptHasOne(live: multiset<Extent>, kept: seq<Row>, dead: seq<Row>, i: nat, files: Files)
    requires i < |dead| && Descending(dead) && (forall r :: r in kept ==> r in dead[..i] && LiveBehind(live, r))
    requires forall r :: r in dead ==> r.rowSize > 0
    requires AllTiled(live, kept, dead[i..], files) && dead[i].fileId in files
    requires dead[i].offset + dead[i].rowSize < |files[dead[i].fileId]|
    ensures LiveBehind(live, dead[i])
    ensures dead[..i + 1] == dead[..i] + [dead[i]]
  {
    var r := dead[i];
    var end := r.offset + r.rowSize;
    var all := live + Extents(kept) + Extents(dead[i..]);
    PeelFacts(live, kept, dead, i, files);
    assert Covered(all, r.fileId, end);
    var x :| x in all && Covers(x, r.fileId, end);
    assert x != ExtentOf(r) && Apart(x, ExtentOf(r));
    RestBefore(dead, i);
    if x in Extents(kept) {
      var k := ExtentsFrom(kept, x, |kept|);
      assert kept[k] in kept;
      var e :| e in live && e.file == kept[k].fileId && e.start >= kept[k].offset + kept[k].rowSize;
    }
  }

  /** From the highest extent down: what reaches the end of its file is cut off, the rest is kept. */
  method Peel(dead: seq<Row>, files: Files, ghost live: multiset<Extent>) returns (kept: seq<Row>, less: Files)
    requires Descending(dead) && (forall r :: r in dead ==> r.rowSize > 0)
    requires AllTiled(live, [], dead, files)
    ensures Descending(kept) && |kept| <= |dead| && (forall r :: r in kept ==> r in dead)
    ensures CutShort(files, less) && Buried(kept, less)
    ensures Tiled(live + Extents(kept), SizesOf(less))
    ensures forall r :: r in dead ==> (r in kept <==> LiveBehind(live, r))
  {
    hide LiveBehind, Tiled;
    kept := [];
    less := files;
    for i := 0 to |dead|
      invariant forall r :: r in dead[..i] ==> (r in kept <==> LiveBehind(live, r))
      invariant |kept| <= i && Descending(kept) && (forall r :: r in kept ==> r in dead[..i])
      invariant CutShort(files, less) && Buried(kept, less)
      invariant AllTiled(live, kept, dead[i..], less)
    {
      var r := dead[i];
      PeelFacts(live, kept, dead, i, less);
      if r.offset + r.rowSize >= |less[r.fileId]| {
        PeelCuts(live, kept, dead, i, less);
        CutHasNone(live, kept, dead, i, less);
        less := Truncate(less, r.fileId, r.offset);
      } else {
        PeelKeeps(live, kept, dead, i, less);
        KeptHasOne(live, kept, dead, i, less);
        KeepsOrder(kept, dead, i);
        kept := kept + [r];
      }
    }
    assert dead[|dead|..] == [] && dead[..|dead|] == dead;
    assert live + Extents(kept) + Extents([]) == live + Extents(kept);
  }

  lemma KeepsOrder(kept: seq<Row>, dead: seq<Row>, i: nat)
    requires i < |dead| && Descending(dead) && Descending(kept) && (forall r :: r in kept ==> r in dead[..i])
    ensures Descending(kept + [dead[i]])
    ensures forall r :: r in kept + [dead[i]] ==> r in dead[..i + 1]
  {
    assert dead[..i + 1] == dead[..i] + [dead[i]];
    forall j | 0 <= j < |kept| ensures After(kept[j], dead[i]) {
      assert kept[j] in dead[..i];
    }
  }

  lemma RestSplits(dead: seq<Row>, i: nat)
    requires i < |dead|
    ensures Extents(dead[i..]) == Owned(dead[i]) + Extents(dead[i + 1..])
  {
    assert dead[i..] == [dead[i]] + dead[i + 1..];
    ExtentsFront(dead[i], dead[i + 1..]);
  }

  lemma PeelFacts(live: multiset<Extent>, kept: seq<Row>, dead: seq<Row>, i: nat, files: Files)
    requires i < |dead| && dead[i].rowSize > 0 && AllTiled(live, kept, dead[i..], files)
    ensures Inside(ExtentOf(dead[i]), SizesOf(files))
    ensures ExtentOf(dead[i]) in live + Extents(kept) + Extents(dead[i..])
  {
    RestSplits(dead, i);
  }

  lemma PeelKeeps(live: multiset<Extent>, kept: seq<Row>, dead: seq<Row>, i: nat, files: Files)
    requires i < |dead| && AllTiled(live, kept, dead[i..], files)
    ensures AllTiled(live, kept + [dead[i]], dead[i + 1..], files)
  {
    RestSplits(dead, i);
    ExtentsPush(kept, dead[i]);
    Regroup3(live, Extents(kept), Owned(dead[i]), Extents(dead[i + 1..]));
  }

  lemma Regroup3<T>(a: multiset<T>, b: multiset<T>, c: multiset<T>, d: multiset<T>)
    ensures a + (b + c) + d == a + b + (c + d)
  {
  }

  /** A dead extent at the end of its file can be cut off: in descending order no kept one lies beyond it. */
  lemma PeelCuts(live: multiset<Extent>, kept: seq<Row>, dead: seq<Row>, i: nat, files: Files)
    requires i < |dead| && Descending(dead) && (forall r :: r in kept ==> r in dead[..i])
    requires forall r :: r in dead ==> r.rowSize > 0
    requires AllTiled(live, kept, dead[i..], files) && Buried(kept, files) && dead[i].fileId in files
    requires dead[i].offset + dead[i].rowSize >= |files[dead[i].fileId]|
    ensures AllTiled(live, kept, dead[i + 1..], Truncate(files, dead[i].fileId, dead[i].offset))
    ensures Buried(kept, Truncate(files, dead[i].fileId, dead[i].offset))
    ensures CutShort(files, Truncate(files, dead[i].fileId, dead[i].offset))
  {
    var r := dead[i];
    var e := ExtentOf(r);
    var all := live + Extents(kept) + Extents(dead[i..]);
    RestSplits(dead, i);
    PeelFacts(live, kept, dead, i, files);
    Regroup(live + Extents(kept), Owned(r), Extents(dead[i + 1..]));
    EitherOrder(live + Extents(kept), Owned(r), Extents(dead[i + 1..]));
    CutLast(all, live + Extents(kept) + Extents(dead[i + 1..]), files, r);
    forall k | k in kept ensures k.fileId != r.fileId {
      KeptElsewhere(live, kept, dead, i, files, k);
    }
  }

  lemma CutLast(m: multiset<Extent>, m': multiset<Extent>, files: Files, r: Row)
    requires Tiled(m, SizesOf(files)) && ExtentOf(r) in m && m' + multiset{ExtentOf(r)} == m
    requires r.fileId in files && r.offset + r.rowSize >= |files[r.fileId]|
    ensures Tiled(m', SizesOf(Truncate(files, r.fileId, r.offset)))
  {
    assert Inside(ExtentOf(r), SizesOf(files));
    TileTruncate(m, m', SizesOf(files), ExtentOf(r));
    assert SizesOf(Truncate(files, r.fileId, r.offset)) == SizesOf(files)[r.fileId := r.offset];
  }

  lemma KeptElsewhere(live: multiset<Extent>, kept: seq<Row>, dead: seq<Row>, i: nat, files: Files, k: Row)
    requires i < |dead| && Descending(dead) && k in kept && k in dead[..i] && (forall r :: r in dead ==> r.rowSize > 0)
    requires AllTiled(live, kept, dead[i..], files) && Buried(kept, files) && dead[i].fileId in files
    requires dead[i].offset + dead[i].rowSize >= |files[dead[i].fileId]|
    ensures k.fileId != dead[i].fileId
  {
    var j :| 0 <= j < |kept| && kept[j] == k;
    assert After(k, dead[i]);
    ExtentsHas(kept, j);
    PeelFacts(live, kept, dead, i, files);
    assert ExtentOf(k) in live + Extents(kept) + Extents(dead[i..]);
    assert k.fileId == dead[i].fileId ==> Apart(ExtentOf(k), ExtentOf(dead[i]));
  }

  // ---- gluing neighbouring dead extents together ----

  function End(e: Extent): nat { e.start + e.size }

  predicate NotAfter(a: Extent, b: Extent) {
    a.file < b.file || (a.file == b.file && a.start <= b.start)
  }

  predicate Ascending(s: seq<Extent>) {
    forall i, j :: 0 <= i < j < |s| ==> NotAfter(s[i], s[j])
  }

  /** In every file the extents come in order with a gap between any two. */
  predicate Gapped(s: seq<Extent>) {
    forall i, j :: 0 <= i < j < |s| && s[i].file == s[j].file ==> End(s[i]) < s[j].start
  }

  /** All of `a` ends strictly before any of `b` from index `from` on starts. */
  predicate Leads(a: seq<Extent>, b: seq<Extent>, from: nat) {
    forall i, j :: 0 <= i < |a| && from <= j < |b| && a[i].file == b[j].file ==> End(a[i]) < b[j].start
  }

  predicate StartsBefore(e: Extent, b: seq<Extent>, from: nat) {
    forall j :: from <= j < |b| ==> NotAfter(e, b[j])
  }

  predicate EndsInside(s: seq<Extent>, sizes: Sizes) {
    forall i :: 0 <= i < |s| ==> s[i].file in sizes && End(s[i]) < sizes[s[i].file]
  }

  /** Descending rows as ascending extents. */
  function Ascend(rows: seq<Row>): seq<Extent> {
    if rows == [] then [] else Ascend(rows[1..]) + [ExtentOf(rows[0])]
  }

  lemma NoExtents(rows: seq<Row>)
    requires rows == []
    ensures Extents(rows) == multiset{}
  {
  }

  lemma {:induction false} AscendExtents(rows: seq<Row>)
    requires forall r :: r in rows ==> r.rowSize > 0
    ensures multiset(Ascend(rows)) == Extents(rows)
  {
    hide Extents;
    if rows == [] {
      NoExtents(rows);
    } else {
      AscendExtents(rows[1..]);
      assert rows == [rows[0]] + rows[1..];
      ExtentsFront(rows[0], rows[1..]);
    }
  }

  lemma {:induction false} AscendAt(rows: seq<Row>)
    ensures |Ascend(rows)| == |rows|
    ensures forall i :: 0 <= i < |rows| ==> Ascend(rows)[i] == ExtentOf(rows[|rows| - 1 - i])
  {
    if rows != [] {
      AscendAt(rows[1..]);
    }
  }

  /** All extents while gluing: live ones, finished ones, the one at hand, and those from index `i` on. */
  ghost predicate Gluing(live: multiset<Extent>, out: seq<Extent>, prev: Extent, exts: seq<Extent>, i: nat, sizes: Sizes)
    requires i <= |exts|
  {
    Tiled(live + multiset(out) + multiset{prev} + multiset(exts[i..]), sizes)
  }

  /** What holds between two looks: the finished extents are gapped and lie before everything to come. */
  ghost predicate CoalesceInv(live: multiset<Extent>, out: seq<Extent>, prev: Extent, exts: seq<Extent>, i: nat, sizes: Sizes) {
    && |out| < i <= |exts| && Ascending(exts) && EndsInside(exts, sizes)
    && Gapped(out) && Leads(out, [prev], 0) && Leads(out, exts, i) && StartsBefore(prev, exts, i)
    && EndsInside(out, sizes) && EndsInside([prev], sizes)
    && Gluing(live, out, prev, exts, i, sizes)
  }

  /** One pass over the dead extents in file order. */
  method Coalesce(exts: seq<Extent>, ghost live: multiset<Extent>, ghost sizes: Sizes) returns (out: seq<Extent>)
    requires |exts| > 0 && Ascending(exts) && EndsInside(exts, sizes)
    requires Tiled(live + multiset(exts), sizes)
    ensures |out| <= |exts| && Gapped(out) && EndsInside(out, sizes)
    ensures Tiled(live + multiset(out), sizes)
  {
    hide CoalesceInv, Tiled;
    var prev := exts[0];
    out := [];
    CoalesceStarts(live, exts, sizes);
    for i := 1 to |exts|
      invariant CoalesceInv(live, out, prev, exts, i, sizes)
    {
      var curr := exts[i];
      if prev.file == curr.file && End(prev) == curr.start {
        GlueStep(live, out, prev, exts, i, sizes);
        prev := Extent(prev.file, prev.start, prev.size + curr.size);
      } else {
        PassStep(live, out, prev, exts, i, sizes);
        out := out + [prev];
        prev := curr;
      }
      assert CoalesceInv(live, out, prev, exts, i + 1, sizes);
    }
    CoalesceEnds(live, out, prev, exts, sizes);
    out := out + [prev];
  }

  lemma CoalesceStarts(live: multiset<Extent>, exts: seq<Extent>, sizes: Sizes)
    requires |exts| > 0 && Ascending(exts) && EndsInside(exts, sizes) && Tiled(live + multiset(exts), sizes)
    ensures CoalesceInv(live, [], exts[0], exts, 1, sizes)
  {
    hide Tiled;
    TakeNext(exts, 0);
    assert exts[0..] == exts;
    assert live + multiset(exts) == live + multiset([]) + multiset{exts[0]} + multiset(exts[1..]);
  }

  lemma CoalesceEnds(live: multiset<Extent>, out: seq<Extent>, prev: Extent, exts: seq<Extent>, sizes: Sizes)
    requires CoalesceInv(live, out, prev, exts, |exts|, sizes)
    ensures |out| < |exts| && Gapped(out + [prev]) && EndsInside(out + [prev], sizes)
    ensures Tiled(live + multiset(out + [prev]), sizes)
  {
    assert exts[|exts|..] == [];
    assert live + multiset(out) + multiset{prev} + multiset(exts[|exts|..]) == live + multiset(out + [prev]);
    assert [prev][0] == prev;
  }

  lemma GlueStep(live: multiset<Extent>, out: seq<Extent>, prev: Extent, exts: seq<Extent>, i: nat, sizes: Sizes)
    requires i < |exts| && CoalesceInv(live, out, prev, exts, i, sizes)
    requires prev.file == exts[i].file && End(prev) == exts[i].start
    ensures CoalesceInv(live, out, Extent(prev.file, prev.start, prev.size + exts[i].size), exts, i + 1, sizes)
  {
    NextExtent(live, out, prev, exts, i, sizes);
    Glue(live, out, prev, exts, i, sizes);
    GlueOrder(out, prev, exts[i].size);
  }

  lemma PassStep(live: multiset<Extent>, out: seq<Extent>, prev: Extent, exts: seq<Extent>, i: nat, sizes: Sizes)
    requires i < |exts| && CoalesceInv(live, out, prev, exts, i, sizes)
    requires !(prev.file == exts[i].file && End(prev) == exts[i].start)
    ensures CoalesceInv(live, out + [prev], exts[i], exts, i + 1, sizes)
  {
    NextExtent(live, out, prev, exts, i, sizes);
    Pass(live, out, prev, exts, i, sizes);
    PassOrder(out, prev, exts, i);
    assert [prev][0] == prev;
  }

  lemma TakeNext(exts: seq<Extent>, i: nat)
    requires i < |exts|
    ensures multiset(exts[i..]) == multiset{exts[i]} + multiset(exts[i + 1..])
  {
    assert exts[i..] == [exts[i]] + exts[i + 1..];
  }

  /** The next extent is another one than the one at hand, and begins at its end or beyond. */
  lemma NextExtent(live: multiset<Extent>, out: seq<Extent>, prev: Extent, exts: seq<Extent>, i: nat, sizes: Sizes)
    requires i < |exts| && Gluing(live, out, prev, exts, i, sizes) && StartsBefore(prev, exts, i)
    ensures prev.file == exts[i].file ==> End(prev) <= exts[i].start
    ensures prev != exts[i]
  {
    var m := live + multiset(out) + multiset{prev} + multiset(exts[i..]);
    TakeNext(exts, i);
    assert prev in m && exts[i] in m;
    assert m[prev] >= if prev == exts[i] then 2 else 1;
    assert Apart(prev, exts[i]);
  }

  lemma Glue(live: multiset<Extent>, out: seq<Extent>, prev: Extent, exts: seq<Extent>, i: nat, sizes: Sizes)
    requires i < |exts| && Gluing(live, out, prev, exts, i, sizes) && prev != exts[i]
    requires prev.file == exts[i].file && End(prev) == exts[i].start
    ensures Gluing(live, out, Extent(prev.file, prev.start, prev.size + exts[i].size), exts, i + 1, sizes)
  {
    var e := Extent(prev.file, prev.start, prev.size + exts[i].size);
    TakeNext(exts, i);
    Trade(live, multiset(out), multiset{prev}, multiset{exts[i]}, multiset(exts[i + 1..]), multiset{e});
    TileMerge(live + multiset(out) + multiset{prev} + multiset(exts[i..]),
              live + multiset(out) + multiset{e} + multiset(exts[i + 1..]), sizes, prev, exts[i]);
  }

  lemma GlueOrder(out: seq<Extent>, prev: Extent, more: nat)
    requires Leads(out, [prev], 0)
    ensures Leads(out, [Extent(prev.file, prev.start, prev.size + more)], 0)
  {
    forall k | 0 <= k < |out| && out[k].file == prev.file ensures End(out[k]) < prev.start {
      assert End(out[k]) < [prev][0].start;
    }
  }

  lemma Trade<T>(a: multiset<T>, b: multiset<T>, x: multiset<T>, y: multiset<T>, rest: multiset<T>, e: multiset<T>)
    ensures a + b + e + rest + x + y == a + b + x + (y + rest) + e
  {
  }

  lemma Pass(live: multiset<Extent>, out: seq<Extent>, prev: Extent, exts: seq<Extent>, i: nat, sizes: Sizes)
    requires i < |exts| && Gluing(live, out, prev, exts, i, sizes)
    ensures Gluing(live, out + [prev], exts[i], exts, i + 1, sizes)
  {
    TakeNext(exts, i);
    assert multiset(out + [prev]) == multiset(out) + multiset{prev};
    Regroup3(live, multiset(out), multiset{prev}, multiset{exts[i]} + multiset(exts[i + 1..]));
    assert live + multiset(out) + multiset{prev} + multiset(exts[i..])
        == live + multiset(out + [prev]) + multiset{exts[i]} + multiset(exts[i + 1..]);
  }

  lemma PassOrder(out: seq<Extent>, prev: Extent, exts: seq<Extent>, i: nat)
    requires i < |exts| && Ascending(exts) && Gapped(out) && Leads(out, [prev], 0) && Leads(out, exts, i)
    requires prev.file == exts[i].file ==> End(prev) < exts[i].start
    requires StartsBefore(prev, exts, i)
    ensures Gapped(out + [prev]) && Leads(out + [prev], [exts[i]], 0) && Leads(out + [prev], exts, i + 1)
    ensures StartsBefore(exts[i], exts, i + 1)
  {
    assert forall k :: 0 <= k < |out| && out[k].file == prev.file ==> End(out[k]) < [prev][0].start;
    assert forall j :: i < j < |exts| ==> NotAfter(prev, exts[j]) && NotAfter(exts[i], exts[j]);
  }

  // ---- growing the records in front of dead space ----

  /** The row starting a glued extent at this place, as the dictionary of glued extents is asked for it. */
  function FindStart(exts: seq<Extent>, file: nat, start: nat): (k: nat)
    ensures k <= |exts|
    ensures k < |exts| ==> exts[k].file == file && exts[k].start == start
    ensures forall j :: 0 <= j < k ==> !(exts[j].file == file && exts[j].start == start)
  {
    if exts == [] || (exts[0].file == file && exts[0].start == start) then 0
    else 1 + FindStart(exts[1..], file, start)
  }

  function Without(exts: seq<Extent>, k: nat): seq<Extent>
    requires k < |exts|
  {
    exts[..k] + exts[k + 1..]
  }

  /** No glued extent starts where one of the first `n` records ends. */
  ghost predicate NotBehind(rows: seq<Row>, n: nat, exts: seq<Extent>)
    requires n <= |rows|
  {
    forall i, j :: 0 <= i < n && 0 <= j < |exts| && rows[i].rowSize > 0 && rows[i].fileId == exts[j].file ==>
      rows[i].offset + rows[i].rowSize != exts[j].start
  }

  /** The same records, each with at least the room it had. */
  ghost predicate Grown(a: seq<Row>, b: seq<Row>) {
    && |a| == |b|
    && (forall i :: 0 <= i < |a| ==> b[i] == a[i].(rowSize := b[i].rowSize) && b[i].rowSize >= a[i].rowSize
                                     && (a[i].rowSize == 0 ==> b[i].rowSize == 0))
  }

  ghost predicate AbsorbInv(live: seq<Row>, merged: seq<Extent>, grown: seq<Row>, rest: seq<Extent>, i: nat, sizes: Sizes) {
    && i <= |live| && Grown(live, grown) && (forall j :: i <= j < |live| ==> grown[j] == live[j])
    && |rest| <= |merged| && Gapped(rest) && EndsInside(rest, sizes)
    && NotBehind(grown, i, rest)
    && Tiled(Extents(grown) + multiset(rest), sizes)
  }

  /** Every record takes over the dead extent right behind it. */
  method Absorb(live: seq<Row>, merged: seq<Extent>, ghost sizes: Sizes) returns (grown: seq<Row>, rest: seq<Extent>)
    requires Gapped(merged) && EndsInside(merged, sizes) && Tiled(Extents(live) + multiset(merged), sizes)
    ensures Grown(live, grown) && |rest| <= |merged| && Gapped(rest) && EndsInside(rest, sizes)
    ensures NotBehind(grown, |grown|, rest) && Tiled(Extents(grown) + multiset(rest), sizes)
  {
    hide AbsorbInv, Tiled;
    grown := live;
    rest := merged;
    AbsorbStarts(live, merged, sizes);
    for i := 0 to |live|
      invariant |grown| == |live| && AbsorbInv(live, merged, grown, rest, i, sizes)
    {
      var r := grown[i];
      var k := if r.rowSize > 0 then FindStart(rest, r.fileId, r.offset + r.rowSize) else |rest|;
      if k < |rest| {
        TakeOver(live, merged, grown, rest, i, k, sizes);
        grown := grown[i := r.(rowSize := r.rowSize + rest[k].size)];
        rest := Without(rest, k);
      } else {
        PassBy(live, merged, grown, rest, i, sizes);
      }
    }
    AbsorbEnds(live, merged, grown, rest, sizes);
  }

  lemma AbsorbStarts(live: seq<Row>, merged: seq<Extent>, sizes: Sizes)
    requires Gapped(merged) && EndsInside(merged, sizes) && Tiled(Extents(live) + multiset(merged), sizes)
    ensures AbsorbInv(live, merged, live, merged, 0, sizes)
  {
  }

  lemma AbsorbEnds(live: seq<Row>, merged: seq<Extent>, grown: seq<Row>, rest: seq<Extent>, sizes: Sizes)
    requires AbsorbInv(live, merged, grown, rest, |live|, sizes)
    ensures Grown(live, grown) && |rest| <= |merged| && Gapped(rest) && EndsInside(rest, sizes)
    ensures NotBehind(grown, |grown|, rest) && Tiled(Extents(grown) + multiset(rest), sizes)
  {
  }

  lemma PassBy(live: seq<Row>, merged: seq<Extent>, grown: seq<Row>, rest: seq<Extent>, i: nat, sizes: Sizes)
    requires AbsorbInv(live, merged, grown, rest, i, sizes) && i < |live| && |grown| == |live|
    requires grown[i].rowSize > 0 ==> forall j :: 0 <= j < |rest| ==>
               !(rest[j].file == grown[i].fileId && rest[j].start == grown[i].offset + grown[i].rowSize)
    ensures AbsorbInv(live, merged, grown, rest, i + 1, sizes)
  {
    hide Tiled, Extents;
  }

  lemma TakeOver(live: seq<Row>, merged: seq<Extent>, grown: seq<Row>, rest: seq<Extent>, i: nat, k: nat, sizes: Sizes)
    requires AbsorbInv(live, merged, grown, rest, i, sizes) && i < |live| && k < |rest| && grown[i].rowSize > 0
    requires rest[k].file == grown[i].fileId && rest[k].start == grown[i].offset + grown[i].rowSize
    ensures AbsorbInv(live, merged, grown[i := grown[i].(rowSize := grown[i].rowSize + rest[k].size)], Without(rest, k), i + 1, sizes)
  {
    var r := grown[i].(rowSize := grown[i].rowSize + rest[k].size);
    TakeOverTiled(grown, rest, i, k, sizes);
    WithoutOrder(grown[i := r], rest, i, k, sizes);
  }

  lemma WithoutOrder(grown: seq<Row>, rest: seq<Extent>, i: nat, k: nat, sizes: Sizes)
    requires i < |grown| && k < |rest| && Gapped(rest) && EndsInside(rest, sizes) && NotBehind(grown, i, rest)
    requires grown[i].fileId == rest[k].file && grown[i].offset + grown[i].rowSize == End(rest[k])
    ensures Gapped(Without(rest, k)) && EndsInside(Without(rest, k), sizes) && NotBehind(grown, i + 1, Without(rest, k))
  {
    var w := Without(rest, k);
    forall j | 0 <= j < |w| ensures w[j] == rest[if j < k then j else j + 1] {
    }
    forall j | 0 <= j < |w| && w[j].file == rest[k].file ensures w[j].start != End(rest[k]) {
      var q := if j < k then j else j + 1;
      assert w[j] == rest[q];
      if q < k { assert End(rest[q]) < rest[k].start; } else { assert End(rest[k]) < rest[q].start; }
    }
  }

  lemma TakeOverTiled(grown: seq<Row>, rest: seq<Extent>, i: nat, k: nat, sizes: Sizes)
    requires i < |grown| && k < |rest| && grown[i].rowSize > 0 && Tiled(Extents(grown) + multiset(rest), sizes)
    requires rest[k].file == grown[i].fileId && rest[k].start == grown[i].offset + grown[i].rowSize
    ensures Tiled(Extents(grown[i := grown[i].(rowSize := grown[i].rowSize + rest[k].size)]) + multiset(Without(rest, k)), sizes)
  {
    var r := grown[i].(rowSize := grown[i].rowSize + rest[k].size);
    var m := Extents(grown) + multiset(rest);
    var m' := Extents(grown[i := r]) + multiset(Without(rest, k));
    ExtentsHas(grown, i);
    ExtentsSet(grown, i, r);
    assert rest == rest[..k] + [rest[k]] + rest[k + 1..];
    assert multiset(rest) == multiset(Without(rest, k)) + multiset{rest[k]};
    Swap(Extents(grown[i := r]), multiset{ExtentOf(grown[i])}, Extents(grown), multiset{ExtentOf(r)},
         multiset(Without(rest, k)), multiset{rest[k]});
    assert Tiled(m, sizes);
    assert rest[k] in rest;
    TileMerge(m, m', sizes, ExtentOf(grown[i]), rest[k]);
  }

  lemma Swap<T>(a: multiset<T>, x: multiset<T>, b: multiset<T>, y: multiset<T>, w: multiset<T>, z: multiset<T>)
    requires a + x == b + y
    ensures a + w + x + z == b + (w + z) + y
  {
    forall t | true ensures (a + w + x + z)[t] == (b + (w + z) + y)[t] {
      assert (a + x)[t] == (b + y)[t];
    }
  }

  // ---- what is left ----

  function FreeRows(exts: seq<Extent>, ver: nat): (rows: seq<Row>)
    ensures |rows| == |exts|
    ensures forall i :: 0 <= i < |exts| ==> rows[i] == FreeRow(exts[i].file, exts[i].start, exts[i].size).(ver := ver)
  {
    if exts == [] then []
    else
      var last := |exts| - 1;
      FreeRows(exts[..last], ver) + [FreeRow(exts[last].file, exts[last].start, exts[last].size).(ver := ver)]
  }

  lemma {:induction false} FreeRowsExtents(exts: seq<Extent>, ver: nat)
    requires forall e :: e in exts ==> e.size > 0
    ensures Extents(FreeRows(exts, ver)) == multiset(exts)
  {
    if exts != [] {
      var init, e := exts[..|exts| - 1], exts[|exts| - 1];
      FreeRowsExtents(init, ver);
      ExtentsPush(FreeRows(init, ver), FreeRow(e.file, e.start, e.size).(ver := ver));
      assert exts == init + [e];
    }
  }

  /** Dead space is reduced to what no record and no other dead extent touches from the left. */
  ghost predicate Compact(rows: seq<Row>, n: nat, files: Files) {
    && n <= |rows|
    && (forall i :: n <= i < |rows| ==> rows[i].rowSize > 0 && rows[i].fileId in files
                                        && rows[i].offset + rows[i].rowSize < |files[rows[i].fileId]|)
    && (forall i, j :: 0 <= i < |rows| && n <= j < |rows| && rows[i].rowSize > 0 && rows[i].fileId == rows[j].fileId ==>
          rows[i].offset + rows[i].rowSize != rows[j].offset)
  }

  /** In a compact, tiled index a dead extent lies at the very start of its file, and there is one per file at most. */
  lemma CompactIsMinimal(rows: seq<Row>, n: nat, files: Files, j: nat)
    requires Compact(rows, n, files) && Tiled(Extents(rows), SizesOf(files)) && n <= j < |rows|
    ensures rows[j].offset == 0
    ensures forall i :: n <= i < |rows| && rows[i].fileId == rows[j].fileId ==> i == j
  {
    DeadAtStart(rows, n, files, j);
    forall i | n <= i < |rows| && rows[i].fileId == rows[j].fileId ensures i == j {
      DeadAtStart(rows, n, files, i);
      if i != j {
        RowsApart(rows, SizesOf(files), i, j);
      }
    }
  }

  /** No extent holds the byte in front of a dead one. */
  lemma NothingInFront(rows: seq<Row>, n: nat, files: Files, i: nat, j: nat)
    requires Compact(rows, n, files) && Tiled(Extents(rows), SizesOf(files)) && n <= j < |rows|
    requires i < |rows| && rows[i].rowSize > 0 && rows[j].offset > 0
    ensures !Covers(ExtentOf(rows[i]), rows[j].fileId, rows[j].offset - 1)
  {
    if i != j {
      RowsApart(rows, SizesOf(files), i, j);
    }
  }

  lemma DeadAtStart(rows: seq<Row>, n: nat, files: Files, j: nat)
    requires Compact(rows, n, files) && Tiled(Extents(rows), SizesOf(files)) && n <= j < |rows|
    ensures rows[j].offset == 0
  {
    var e := ExtentOf(rows[j]);
    ExtentsHas(rows, j);
    if e.start > 0 {
      assert Inside(e, SizesOf(files));
      assert Covered(Extents(rows), e.file, e.start - 1);
      var x :| x in Extents(rows) && Covers(x, e.file, e.start - 1);
      var i := ExtentsFrom(rows, x, |rows|);
      NothingInFront(rows, n, files, i, j);
    }
  }
}
