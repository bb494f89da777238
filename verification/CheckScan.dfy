/** The consistency scan over all extents, and what its silence says about them. */
module CheckScan {
  import opened Bytes
  import opened Rows
  import opened Recycle

  /** Where extent `i` should start: at 0 in a new file, else where the one before it ends. */
  function Expected(exts: seq<Extent>, i: nat): nat
    requires i < |exts|
  {
    if i == 0 || exts[i - 1].file != exts[i].file then 0 else End(exts[i - 1])
  }

  /** No gap in front of any extent, and no overlap. */
  predicate Chained(exts: seq<Extent>) {
    forall i {:trigger Expected(exts, i)} :: 0 <= i < |exts| ==> exts[i].start == Expected(exts, i)
  }

  predicate LastOfFile(exts: seq<Extent>, i: nat)
    requires i < |exts|
  {
    i + 1 == |exts| || exts[i + 1].file != exts[i].file
  }

  /** The last extent of every file ends with the file, and files without extents are empty. */
  ghost predicate Reaches(exts: seq<Extent>, sizes: Sizes) {
    && (forall i :: 0 <= i < |exts| && LastOfFile(exts, i) ==> exts[i].file in sizes && End(exts[i]) == sizes[exts[i].file])
    && (forall f :: f in sizes && sizes[f] > 0 ==> exists i :: 0 <= i < |exts| && exts[i].file == f)
  }

  ghost predicate Solid(exts: seq<Extent>) {
    forall i :: 0 <= i < |exts| ==> exts[i].size > 0
  }

  /** check_error without repairs: the extents in file order, each compared with the end of the one before;
      whether anything is found. A single extent is not looked at. */
  method Scan(exts: seq<Extent>) returns (found: bool)
    ensures !found <==> |exts| <= 1 || Chained(exts)
  {
    if |exts| <= 1 {
      return false;
    }
    var file: Option<nat> := None;
    var next := 0;
    for i := 0 to |exts|
      invariant file == if i == 0 then None else Some(exts[i - 1].file)
      invariant i > 0 ==> next == End(exts[i - 1])
      invariant forall j {:trigger Expected(exts, j)} :: 0 <= j < i ==> exts[j].start == Expected(exts, j)
    {
      var e := exts[i];
      assert Expected(exts, i) == if file == Some(e.file) then next else 0;
      if file != Some(e.file) {
        file := Some(e.file);
        if e.start > 0 {
          return true;
        }
      } else if e.start != next {
        return true;
      }
      next := End(e);
    }
    found := false;
  }

  predicate KeysDiffer(rows: seq<Row>, n: nat)
    requires n <= |rows|
  {
    forall i, j :: 0 <= i < j < n ==> rows[i].key != rows[j].key
  }

  /** The first loop of check_error: whether two of the first `n` rows have the same key. */
  method KeyTwice(rows: seq<Row>, n: nat) returns (found: bool)
    requires n <= |rows|
    ensures !found <==> KeysDiffer(rows, n)
  {
    var keys := {};
    for row := 0 to n
      invariant forall k :: k in keys <==> exists i :: 0 <= i < row && rows[i].key == k
      invariant KeysDiffer(rows, row)
    {
      if rows[row].key in keys {
        return true;
      }
      keys := keys + {rows[row].key};
    }
    found := false;
  }

  // ---- silence means tiled ----

  /** In a chain an earlier extent of a file ends before a later one starts. */
  lemma {:induction false} ChainOrder(exts: seq<Extent>, i: nat, j: nat)
    requires Chained(exts) && Solid(exts) && Ascending(exts) && i < j < |exts| && exts[i].file == exts[j].file
    ensures End(exts[i]) <= exts[j].start
  {
    SameFileBetween(exts, i, j - 1, j);
    assert exts[j].start == Expected(exts, j) == End(exts[j - 1]);
    if i < j - 1 {
      ChainOrder(exts, i, j - 1);
    }
  }

  lemma SameFileBetween(exts: seq<Extent>, i: nat, k: nat, j: nat)
    requires Ascending(exts) && i <= k <= j < |exts| && exts[i].file == exts[j].file
    ensures exts[k].file == exts[j].file
  {
    if i < k < j {
      assert NotAfter(exts[i], exts[k]) && NotAfter(exts[k], exts[j]);
    }
  }

  /** The last extent of the file of `i`, at or behind `i`. */
  lemma {:induction false} LastFrom(exts: seq<Extent>, i: nat) returns (k: nat)
    requires i < |exts|
    ensures i <= k < |exts| && exts[k].file == exts[i].file && LastOfFile(exts, k)
    decreases |exts| - i
  {
    k := i;
    if !LastOfFile(exts, i) {
      k := LastFrom(exts, i + 1);
    }
  }

  /** Walking back along the chain finds the extent that holds a byte. */
  lemma {:induction false} Holder(exts: seq<Extent>, i: nat, p: nat) returns (k: nat)
    requires Chained(exts) && i < |exts| && p < End(exts[i])
    ensures k <= i && Covers(exts[k], exts[i].file, p)
  {
    if p >= exts[i].start {
      k := i;
    } else {
      assert exts[i].start == Expected(exts, i);
      k := Holder(exts, i - 1, p);
    }
  }

  lemma ChainInside(exts: seq<Extent>, sizes: Sizes, i: nat)
    requires Chained(exts) && Solid(exts) && Ascending(exts) && Reaches(exts, sizes) && i < |exts|
    ensures Inside(exts[i], sizes)
  {
    hide Chained, Ascending, LastOfFile;
    var k := LastFrom(exts, i);
    assert exts[k].file in sizes && End(exts[k]) == sizes[exts[k].file];
    if i < k {
      ChainOrder(exts, i, k);
    }
  }

  lemma InSeq(exts: seq<Extent>, e: Extent) returns (i: nat)
    requires e in multiset(exts)
    ensures i < |exts| && exts[i] == e
  {
    assert e in exts;
    i :| i < |exts| && exts[i] == e;
  }

  lemma {:induction false} OnceEach(exts: seq<Extent>, n: nat)
    requires n <= |exts| && forall i, j :: 0 <= i < j < |exts| ==> exts[i] != exts[j]
    ensures forall e :: multiset(exts[..n])[e] <= 1
  {
    if n > 0 {
      OnceEach(exts, n - 1);
      assert exts[..n] == exts[..n - 1] + [exts[n - 1]];
      assert exts[n - 1] !in exts[..n - 1];
    }
  }

  lemma ChainApart(exts: seq<Extent>, i: nat, j: nat)
    requires Chained(exts) && Solid(exts) && Ascending(exts) && i < j < |exts|
    ensures exts[i] != exts[j] && Apart(exts[i], exts[j])
  {
    if exts[i].file == exts[j].file {
      ChainOrder(exts, i, j);
    }
  }

  lemma SilentIsTiled(exts: seq<Extent>, sizes: Sizes)
    requires Ascending(exts) && Solid(exts) && Chained(exts) && Reaches(exts, sizes)
    ensures Tiled(multiset(exts), sizes)
  {
    var m := multiset(exts);
    forall i, j | 0 <= i < j < |exts| ensures exts[i] != exts[j] {
      ChainApart(exts, i, j);
    }
    OnceEach(exts, |exts|);
    assert exts[..|exts|] == exts;
    forall e | e in m ensures m[e] == 1 && Inside(e, sizes) {
      var i := InSeq(exts, e);
      ChainInside(exts, sizes, i);
    }
    forall a, b | a in m && b in m && a != b ensures Apart(a, b) {
      var i := InSeq(exts, a);
      var j := InSeq(exts, b);
      if i < j { ChainApart(exts, i, j); } else { ChainApart(exts, j, i); }
    }
    forall f, p | f in sizes && 0 <= p < sizes[f] ensures Covered(m, f, p) {
      ChainCovers(exts, sizes, f, p);
    }
  }

  lemma ChainCovers(exts: seq<Extent>, sizes: Sizes, f: nat, p: nat)
    requires Chained(exts) && Reaches(exts, sizes) && f in sizes && p < sizes[f]
    ensures Covered(multiset(exts), f, p)
  {
    var i :| 0 <= i < |exts| && exts[i].file == f;
    var last := LastFrom(exts, i);
    var k := Holder(exts, last, p);
    assert exts[k] in multiset(exts) && Covers(exts[k], f, p);
  }

  // ---- tiled means silent ----

  lemma TwoApart(exts: seq<Extent>, sizes: Sizes, i: nat, j: nat)
    requires Tiled(multiset(exts), sizes) && i < j < |exts|
    ensures exts[i] != exts[j] && Apart(exts[i], exts[j])
  {
    if exts[i] == exts[j] {
      Twice(exts, i, j);
    }
    assert exts[i] in multiset(exts) && exts[j] in multiset(exts);
  }

  lemma Twice(exts: seq<Extent>, i: nat, j: nat)
    requires i < j < |exts| && exts[i] == exts[j]
    ensures multiset(exts)[exts[i]] >= 2
  {
    assert exts == exts[..j] + exts[j..];
    assert exts[i] in exts[..j] && exts[j] in exts[j..];
    assert exts[..j][i] == exts[i] && exts[j..][0] == exts[j];
  }

  /** In a tiled file the byte in front of an extent belongs to the extent before it. */
  lemma TiledIsChained(exts: seq<Extent>, sizes: Sizes, i: nat)
    requires Ascending(exts) && Solid(exts) && Tiled(multiset(exts), sizes) && i < |exts|
    ensures exts[i].start == Expected(exts, i)
  {
    var e, want := exts[i], Expected(exts, i);
    assert e in multiset(exts) && Inside(e, sizes);
    if i > 0 && exts[i - 1].file == e.file {
      TwoApart(exts, sizes, i - 1, i);
      assert NotAfter(exts[i - 1], e);
    }
    if want < e.start {
      assert Covered(multiset(exts), e.file, want);
      var x :| x in multiset(exts) && Covers(x, e.file, want);
      var j := InSeq(exts, x);
      NotHeld(exts, sizes, i, j, want);
    }
  }

  lemma InOrder(exts: seq<Extent>, sizes: Sizes, i: nat, j: nat)
    requires Ascending(exts) && Solid(exts) && Tiled(multiset(exts), sizes) && i < j < |exts| && exts[i].file == exts[j].file
    ensures End(exts[i]) <= exts[j].start
  {
    TwoApart(exts, sizes, i, j);
    assert NotAfter(exts[i], exts[j]);
  }

  /** Were there a gap in front of extent `i`, no extent could hold its first byte. */
  lemma NotHeld(exts: seq<Extent>, sizes: Sizes, i: nat, j: nat, want: nat)
    requires Ascending(exts) && Solid(exts) && Tiled(multiset(exts), sizes) && i < |exts| && j < |exts|
    requires want == Expected(exts, i) < exts[i].start
    ensures !Covers(exts[j], exts[i].file, want)
  {
    if exts[j].file == exts[i].file {
      if j > i {
        assert NotAfter(exts[i], exts[j]);
      } else if j < i {
        SameFileBetween(exts, j, i - 1, i);
        if j < i - 1 {
          InOrder(exts, sizes, j, i - 1);
        }
      }
    }
  }

  /** The byte behind the last extent of a file is held by none. */
  lemma NoneBehind(exts: seq<Extent>, sizes: Sizes, i: nat, j: nat)
    requires Ascending(exts) && Solid(exts) && Tiled(multiset(exts), sizes) && i < |exts| && j < |exts| && LastOfFile(exts, i)
    ensures !Covers(exts[j], exts[i].file, End(exts[i]))
  {
    if j < i && exts[j].file == exts[i].file {
      InOrder(exts, sizes, j, i);
    } else if j > i {
      assert NotAfter(exts[i], exts[i + 1]);
      assert j > i + 1 ==> NotAfter(exts[i + 1], exts[j]);
    }
  }

  lemma TiledReaches(exts: seq<Extent>, sizes: Sizes, i: nat)
    requires Ascending(exts) && Solid(exts) && Tiled(multiset(exts), sizes) && i < |exts| && LastOfFile(exts, i)
    ensures exts[i].file in sizes && End(exts[i]) == sizes[exts[i].file]
  {
    var e := exts[i];
    assert e in multiset(exts) && Inside(e, sizes);
    if End(e) < sizes[e.file] {
      assert Covered(multiset(exts), e.file, End(e));
      var x :| x in multiset(exts) && Covers(x, e.file, End(e));
      var j := InSeq(exts, x);
      NoneBehind(exts, sizes, i, j);
    }
  }

  lemma TiledIsSilent(exts: seq<Extent>, sizes: Sizes)
    requires Ascending(exts) && Solid(exts) && Tiled(multiset(exts), sizes)
    ensures Chained(exts) && Reaches(exts, sizes)
  {
    forall i | 0 <= i < |exts| ensures exts[i].start == Expected(exts, i) {
      TiledIsChained(exts, sizes, i);
    }
    forall i | 0 <= i < |exts| && LastOfFile(exts, i)
      ensures exts[i].file in sizes && End(exts[i]) == sizes[exts[i].file]
    {
      TiledReaches(exts, sizes, i);
    }
    forall f | f in sizes && sizes[f] > 0 ensures exists i :: 0 <= i < |exts| && exts[i].file == f {
      assert Covered(multiset(exts), f, 0);
      var x :| x in multiset(exts) && Covers(x, f, 0);
      var i := InSeq(exts, x);
    }
  }

  /** The extents of all rows in file order, as the scan sorts them. */
  function Sorted(rows: seq<Row>): seq<Extent> {
    Ascend(SortedDead(rows))
  }

  lemma SortedIs(rows: seq<Row>)
    ensures multiset(Sorted(rows)) == Extents(rows) && Ascending(Sorted(rows)) && Solid(Sorted(rows))
  {
    SortedDeadIs(rows);
    AscendExtents(SortedDead(rows));
    AscendAt(SortedDead(rows));
  }

  /** The rows tile the files exactly when the chain is unbroken and reaches the end of every file: the scan
      tests the first half, unless there is only one extent, and leaves the second half to the reader. */
  lemma ScanIff(rows: seq<Row>, sizes: Sizes)
    ensures Tiled(Extents(rows), sizes) <==> Chained(Sorted(rows)) && Reaches(Sorted(rows), sizes)
  {
    SortedIs(rows);
    if Tiled(Extents(rows), sizes) {
      TiledIsSilent(Sorted(rows), sizes);
    } else if Chained(Sorted(rows)) && Reaches(Sorted(rows), sizes) {
      SilentIsTiled(Sorted(rows), sizes);
    }
  }

  /** A lone extent with a gap in front of it passes the scan although the file is not tiled. */
  lemma LoneExtentPasses(size: nat)
    requires size > 0
    ensures var rows := [FreeRow(0, 1, size)];
      |Sorted(rows)| <= 1 && !Tiled(Extents(rows), map[0 := 1 + size])
  {
    var rows := [FreeRow(0, 1, size)];
    var sizes: Sizes := map[0 := 1 + size];
    SortedDeadIs(rows);
    AscendAt(SortedDead(rows));
    assert Extents(rows) == ExtentsUpTo(rows, 0) + Owned(rows[0]);
    assert !Covered(Extents(rows), 0, 0);
    assert 0 in sizes && 0 <= 0 < sizes[0];
  }

  /** The other way a silent scan can be wrong: bytes behind the last extent of a file belong to no row,
      and whatever is added there is not looked at. */
  lemma TailPasses(rows: seq<Row>, sizes: Sizes, f: nat, more: nat)
    requires Tiled(Extents(rows), sizes) && f in sizes && more > 0
    ensures Chained(Sorted(rows))
    ensures !Tiled(Extents(rows), sizes[f := sizes[f] + more]) && !Reaches(Sorted(rows), sizes[f := sizes[f] + more])
  {
    var longer := sizes[f := sizes[f] + more];
    SortedIs(rows);
    TiledIsSilent(Sorted(rows), sizes);
    assert f in longer && 0 <= sizes[f] < longer[f];
    forall e | e in Extents(rows) ensures !Covers(e, f, sizes[f]) {
      assert Inside(e, sizes);
    }
    assert !Covered(Extents(rows), f, sizes[f]);
    ScanIff(rows, longer);
  }

  lemma TwoBytesTiled()
    ensures Tiled(multiset{Extent(0, 0, 1), Extent(0, 1, 1)}, map[0 := 2])
  {
    var m, sizes: Sizes := multiset{Extent(0, 0, 1), Extent(0, 1, 1)}, map[0 := 2];
    forall f, p | f in sizes && 0 <= p < sizes[f] ensures Covered(m, f, p) {
      assert Extent(0, p, 1) in m && Covers(Extent(0, p, 1), f, p);
    }
  }

  /** Two rows of one byte each in a file of three. */
  lemma ThirdBytePasses()
    ensures var rows, sizes := [FreeRow(0, 0, 1), FreeRow(0, 1, 1)], map[0 := 3];
      |Sorted(rows)| == 2 && Chained(Sorted(rows)) && !Reaches(Sorted(rows), sizes) && !Tiled(Extents(rows), sizes)
  {
    hide Tiled, Chained, Reaches, Sorted, Ascending, Solid;
    var rows, sizes := [FreeRow(0, 0, 1), FreeRow(0, 1, 1)], map[0 := 2];
    assert ExtentsUpTo(rows, 1) == multiset{Extent(0, 0, 1)};
    assert Extents(rows) == multiset{Extent(0, 0, 1), Extent(0, 1, 1)};
    TwoBytesTiled();
    SortedIs(rows);
    assert |Sorted(rows)| == |multiset(Sorted(rows))|;
    TailPasses(rows, sizes, 0, 1);
    assert sizes[0 := sizes[0] + 1] == map[0 := 3];
  }
}
