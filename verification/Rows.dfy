/** Index rows, the byte extents they own, and what it means for the extents to tile the VAL files. */
module Rows {

  type Key = string

  datatype Flags = Flags(readOnly: bool, appendOnly: bool, noDelete: bool, noRevert: bool)

  const NO_FLAGS := Flags(false, false, false, false)

  /** One KEY row. With `rowSize == 0` the value sits in the row itself and
      `fileId`, `offset`, `valSize` are its type id, packed bits and encoded length. */
  datatype Row = Row(key: Key, fileId: nat, offset: nat, rowSize: nat, valSize: nat, ver: nat, flags: Flags)

  datatype Extent = Extent(file: nat, start: nat, size: nat)

  /** The stored version a row stands for, without its session stamp and preferences. */
  datatype Version = Version(key: Key, fileId: nat, offset: nat, rowSize: nat, valSize: nat)

  type Sizes = map<nat, nat>

  function VersionOf(r: Row): Version {
    Version(r.key, r.fileId, r.offset, r.rowSize, r.valSize)
  }

  function FreeRow(file: nat, start: nat, size: nat): Row {
    Row("", file, start, size, 0, 0, NO_FLAGS)
  }

  function ExtentOf(r: Row): Extent {
    Extent(r.fileId, r.offset, r.rowSize)
  }

  /** The extent a row owns, if any. */
  function Owned(r: Row): multiset<Extent> {
    if r.rowSize > 0 then multiset{ExtentOf(r)} else multiset{}
  }

  /** The extents owned by the first `n` rows. */
  function ExtentsUpTo(rows: seq<Row>, n: nat): multiset<Extent>
    requires n <= |rows|
  {
    if n == 0 then multiset{} else ExtentsUpTo(rows, n - 1) + Owned(rows[n - 1])
  }

  /** All extents owned by a run of rows. */
  function Extents(rows: seq<Row>): multiset<Extent> {
    ExtentsUpTo(rows, |rows|)
  }

  /** The versions held by the first `n` rows. */
  function VersionsUpTo(rows: seq<Row>, n: nat): multiset<Version>
    requires n <= |rows|
  {
    if n == 0 then multiset{} else VersionsUpTo(rows, n - 1) + multiset{VersionOf(rows[n - 1])}
  }

  /** All versions held by a run of rows. */
  function Versions(rows: seq<Row>): multiset<Version> {
    VersionsUpTo(rows, |rows|)
  }

  /** The same addition on both sides of a balance. */
  lemma AddBoth<T>(a: multiset<T>, x: multiset<T>, b: multiset<T>, y: multiset<T>, more: multiset<T>)
    requires a + x == b + y
    ensures a + more + x == b + more + y
  {
    forall t | true ensures (a + more + x)[t] == (b + more + y)[t] {
      assert (a + x)[t] == (b + y)[t];
    }
  }

  lemma EitherOrder<T>(a: multiset<T>, x: multiset<T>, y: multiset<T>)
    ensures a + x + y == a + y + x
  {
  }

  lemma {:induction false} ExtentsSame(a: seq<Row>, b: seq<Row>, n: nat)
    requires n <= |a| && n <= |b| && forall i :: 0 <= i < n ==> a[i] == b[i]
    ensures ExtentsUpTo(a, n) == ExtentsUpTo(b, n)
  {
    if n > 0 {
      ExtentsSame(a, b, n - 1);
    }
  }

  lemma ExtentsStep(rows: seq<Row>, n: nat)
    requires n < |rows|
    ensures ExtentsUpTo(rows, n + 1) == ExtentsUpTo(rows, n) + Owned(rows[n])
  {
  }

  lemma {:induction false} ExtentsSetUpTo(rows: seq<Row>, i: nat, r: Row, n: nat)
    requires i < n <= |rows|
    ensures ExtentsUpTo(rows[i := r], n) + Owned(rows[i]) == ExtentsUpTo(rows, n) + Owned(r)
  {
    hide ExtentsUpTo, Owned;
    ExtentsStep(rows, n - 1);
    ExtentsStep(rows[i := r], n - 1);
    if i < n - 1 {
      assert rows[i := r][n - 1] == rows[n - 1];
      ExtentsSetUpTo(rows, i, r, n - 1);
      AddBoth(ExtentsUpTo(rows[i := r], n - 1), Owned(rows[i]), ExtentsUpTo(rows, n - 1), Owned(r), Owned(rows[n - 1]));
    } else {
      ExtentsSame(rows[i := r], rows, i);
      EitherOrder(ExtentsUpTo(rows, i), Owned(r), Owned(rows[i]));
    }
  }

  lemma ExtentsSet(rows: seq<Row>, i: nat, r: Row)
    requires i < |rows|
    ensures Extents(rows[i := r]) + Owned(rows[i]) == Extents(rows) + Owned(r)
  {
    ExtentsSetUpTo(rows, i, r, |rows|);
  }

  lemma ExtentsPush(rows: seq<Row>, r: Row)
    ensures Extents(rows + [r]) == Extents(rows) + Owned(r)
  {
    ExtentsSame(rows + [r], rows, |rows|);
  }

  lemma NothingMore<T>(m: multiset<T>)
    ensures m + multiset{} == m
  {
  }

  lemma ExtentsNone(rows: seq<Row>)
    ensures ExtentsUpTo(rows, 0) == multiset{}
  {
  }

  lemma {:induction false} ExtentsConcatUpTo(a: seq<Row>, b: seq<Row>, n: nat)
    requires n <= |b|
    ensures ExtentsUpTo(a + b, |a| + n) == Extents(a) + ExtentsUpTo(b, n)
  {
    hide ExtentsUpTo, Owned;
    if n == 0 {
      ExtentsSame(a + b, a, |a|);
      ExtentsNone(b);
      NothingMore(Extents(a));
    } else {
      assert (a + b)[|a| + n - 1] == b[n - 1];
      ExtentsConcatUpTo(a, b, n - 1);
      ExtentsStep(a + b, |a| + n - 1);
      ExtentsStep(b, n - 1);
      Regroup(Extents(a), ExtentsUpTo(b, n - 1), Owned(b[n - 1]));
    }
  }

  lemma ExtentsConcat(a: seq<Row>, b: seq<Row>)
    ensures Extents(a + b) == Extents(a) + Extents(b)
  {
    ExtentsConcatUpTo(a, b, |b|);
  }

  lemma ExtentsFront(r: Row, rows: seq<Row>)
    ensures Extents([r] + rows) == Owned(r) + Extents(rows)
  {
    ExtentsConcat([r], rows);
    assert ExtentsUpTo([r], 1) == ExtentsUpTo([r], 0) + Owned(r);
    assert Extents([r]) == Owned(r);
  }

  lemma Regroup<T>(a: multiset<T>, b: multiset<T>, c: multiset<T>)
    ensures (a + b) + c == a + (b + c)
  {
  }

  lemma {:induction false} VersionsSame(a: seq<Row>, b: seq<Row>, n: nat)
    requires n <= |a| && n <= |b| && forall i :: 0 <= i < n ==> a[i] == b[i]
    ensures VersionsUpTo(a, n) == VersionsUpTo(b, n)
  {
    if n > 0 {
      VersionsSame(a, b, n - 1);
    }
  }

  lemma {:induction false} VersionsSetUpTo(rows: seq<Row>, i: nat, r: Row, n: nat)
    requires i < n <= |rows|
    ensures VersionsUpTo(rows[i := r], n) + multiset{VersionOf(rows[i])} == VersionsUpTo(rows, n) + multiset{VersionOf(r)}
  {
    if i < n - 1 {
      VersionsSetUpTo(rows, i, r, n - 1);
      AddBoth(VersionsUpTo(rows[i := r], n - 1), multiset{VersionOf(rows[i])},
              VersionsUpTo(rows, n - 1), multiset{VersionOf(r)}, multiset{VersionOf(rows[n - 1])});
    } else {
      VersionsSame(rows[i := r], rows, i);
    }
  }

  lemma VersionsSet(rows: seq<Row>, i: nat, r: Row)
    requires i < |rows|
    ensures Versions(rows[i := r]) + multiset{VersionOf(rows[i])} == Versions(rows) + multiset{VersionOf(r)}
  {
    VersionsSetUpTo(rows, i, r, |rows|);
  }

  lemma VersionsPush(rows: seq<Row>, r: Row)
    ensures Versions(rows + [r]) == Versions(rows) + multiset{VersionOf(r)}
  {
    VersionsSame(rows + [r], rows, |rows|);
  }

  lemma {:induction false} ExtentsHasUpTo(rows: seq<Row>, i: nat, n: nat)
    requires i < n <= |rows| && rows[i].rowSize > 0
    ensures ExtentOf(rows[i]) in ExtentsUpTo(rows, n)
  {
    if i < n - 1 {
      ExtentsHasUpTo(rows, i, n - 1);
    }
  }

  /** A row that owns an extent contributes it. */
  lemma ExtentsHas(rows: seq<Row>, i: nat)
    requires i < |rows| && rows[i].rowSize > 0
    ensures ExtentOf(rows[i]) in Extents(rows)
  {
    ExtentsHasUpTo(rows, i, |rows|);
  }

  /** Every extent comes from some row. */
  lemma {:induction false} ExtentsFrom(rows: seq<Row>, e: Extent, n: nat) returns (i: nat)
    requires n <= |rows| && e in ExtentsUpTo(rows, n)
    ensures i < n && rows[i].rowSize > 0 && ExtentOf(rows[i]) == e
  {
    if e in Owned(rows[n - 1]) {
      i := n - 1;
    } else {
      i := ExtentsFrom(rows, e, n - 1);
    }
  }

  /** Two rows owning the same extent count twice. */
  lemma {:induction false} ExtentsTwice(rows: seq<Row>, i: nat, j: nat, n: nat)
    requires i < j < n <= |rows| && rows[i].rowSize > 0 && rows[j].rowSize > 0
    requires ExtentOf(rows[i]) == ExtentOf(rows[j])
    ensures ExtentsUpTo(rows, n)[ExtentOf(rows[i])] >= 2
  {
    if j < n - 1 {
      ExtentsTwice(rows, i, j, n - 1);
    } else {
      ExtentsHasUpTo(rows, i, n - 1);
    }
  }

  /** Three rows trading places, possibly with new stamps, lose no version and no extent. */
  lemma Cycle(rows: seq<Row>, i: nat, j: nat, k: nat, atI: Row, atJ: Row, atK: Row)
    requires i < |rows| && j < |rows| && k < |rows| && (i == k ==> i == j)
    requires VersionOf(atI) == VersionOf(rows[j])
    requires VersionOf(atJ) == VersionOf(rows[k])
    requires VersionOf(atK) == VersionOf(rows[i])
    ensures Versions(rows[i := atI][j := atJ][k := atK]) == Versions(rows)
    ensures Extents(rows[i := atI][j := atJ][k := atK]) == Extents(rows)
  {
    hide Versions, Extents;
    var a := rows[i := atI];
    var b := a[j := atJ];
    VersionsSet(rows, i, atI);
    VersionsSet(a, j, atJ);
    VersionsSet(b, k, atK);
    assert VersionOf(a[j]) == VersionOf(atI) && VersionOf(b[k]) == VersionOf(atJ);
    Chain(Versions(rows), Versions(a), Versions(b), Versions(b[k := atK]),
          multiset{VersionOf(rows[i])}, multiset{VersionOf(atI)}, multiset{VersionOf(atJ)});
    ExtentsSet(rows, i, atI);
    ExtentsSet(a, j, atJ);
    ExtentsSet(b, k, atK);
    Chain(Extents(rows), Extents(a), Extents(b), Extents(b[k := atK]), Owned(rows[i]), Owned(atI), Owned(atJ));
  }

  lemma Chain<T>(m: multiset<T>, a: multiset<T>, b: multiset<T>, z: multiset<T>,
                 x: multiset<T>, y: multiset<T>, w: multiset<T>)
    requires a + x == m + y && b + y == a + w && z + w == b + x
    ensures z == m
  {
    forall t | true ensures z[t] == m[t] {
      assert (a + x)[t] == (m + y)[t];
      assert (b + y)[t] == (a + w)[t];
      assert (z + w)[t] == (b + x)[t];
    }
  }

  predicate Apart(a: Extent, b: Extent) {
    a.file != b.file || a.start + a.size <= b.start || b.start + b.size <= a.start
  }

  predicate Covers(e: Extent, file: nat, p: int) {
    e.file == file && e.start <= p < e.start + e.size
  }

  ghost predicate Covered(m: multiset<Extent>, file: nat, p: int) {
    exists e :: e in m && Covers(e, file, p)
  }

  predicate Inside(e: Extent, sizes: Sizes) {
    e.size > 0 && e.file in sizes && e.start + e.size <= sizes[e.file]
  }

  /** The extents partition every VAL file: in bounds, pairwise apart, no byte left over. */
  ghost predicate Tiled(m: multiset<Extent>, sizes: Sizes) {
    && (forall e :: e in m ==> m[e] == 1 && Inside(e, sizes))
    && (forall a, b :: a in m && b in m && a != b ==> Apart(a, b))
    && (forall f, p :: f in sizes && 0 <= p < sizes[f] ==> Covered(m, f, p))
  }

  /** Two different rows never share a byte. */
  lemma RowsApart(rows: seq<Row>, sizes: Sizes, i: nat, j: nat)
    requires Tiled(Extents(rows), sizes)
    requires i < |rows| && j < |rows| && i != j && rows[i].rowSize > 0 && rows[j].rowSize > 0
    ensures Apart(ExtentOf(rows[i]), ExtentOf(rows[j]))
  {
    ExtentsHas(rows, i);
    ExtentsHas(rows, j);
    if ExtentOf(rows[i]) == ExtentOf(rows[j]) {
      ExtentsTwice(rows, if i < j then i else j, if i < j then j else i, |rows|);
    }
  }

  /** A new extent at the current end of a file (or at the start of a new one) keeps the tiling. */
  lemma TileGrow(m: multiset<Extent>, sizes: Sizes, file: nat, size: nat)
    requires Tiled(m, sizes) && size > 0
    ensures var end := if file in sizes then sizes[file] else 0;
      Tiled(m + multiset{Extent(file, end, size)}, sizes[file := end + size])
  {
    var end := if file in sizes then sizes[file] else 0;
    var e := Extent(file, end, size);
    var m' := m + multiset{e};
    var sizes' := sizes[file := end + size];
    forall f, p | f in sizes' && 0 <= p < sizes'[f]
      ensures Covered(m', f, p)
    {
      if f == file && p >= end {
        assert e in m' && Covers(e, f, p);
      } else {
        assert Covered(m, f, p);
        var x :| x in m && Covers(x, f, p);
        assert x in m';
      }
    }
  }

  lemma TradeOneForTwo<T(!new)>(m: multiset<T>, m': multiset<T>, x: T, y: T, z: T)
    requires m' + multiset{x} == m + multiset{y} + multiset{z}
    requires x in m && x != y && x != z && y != z
    ensures forall t :: m'[t] == if t == x then m[t] - 1 else if t == y || t == z then m[t] + 1 else m[t]
  {
    forall t ensures m'[t] == if t == x then m[t] - 1 else if t == y || t == z then m[t] + 1 else m[t] {
      assert (m' + multiset{x})[t] == (m + multiset{y} + multiset{z})[t];
    }
  }

  lemma TradeTwoForOne<T(!new)>(m: multiset<T>, m': multiset<T>, x: T, y: T, z: T)
    requires m' + multiset{x} + multiset{y} == m + multiset{z}
    requires x in m && y in m && x != y && x != z && y != z
    ensures forall t :: m'[t] == if t == x || t == y then m[t] - 1 else if t == z then m[t] + 1 else m[t]
  {
    forall t ensures m'[t] == if t == x || t == y then m[t] - 1 else if t == z then m[t] + 1 else m[t] {
      assert (m' + multiset{x} + multiset{y})[t] == (m + multiset{z})[t];
    }
  }

  /** Every byte stays covered when each extent gives way to one that covers it. */
  lemma StillCovered(m: multiset<Extent>, m': multiset<Extent>, sizes: Sizes)
    requires forall f, p :: f in sizes && 0 <= p < sizes[f] ==> Covered(m, f, p)
    requires forall x, f, p :: x in m && Covers(x, f, p) ==> Covered(m', f, p)
    ensures forall f, p :: f in sizes && 0 <= p < sizes[f] ==> Covered(m', f, p)
  {
    forall f, p | f in sizes && 0 <= p < sizes[f] ensures Covered(m', f, p) {
      assert Covered(m, f, p);
      var x :| x in m && Covers(x, f, p);
    }
  }

  /** Cutting one extent in two keeps the tiling. */
  lemma TileSplit(m: multiset<Extent>, m': multiset<Extent>, sizes: Sizes, e: Extent, lo: Extent, hi: Extent)
    requires e in m && m' + multiset{e} == m + multiset{hi} + multiset{lo}
    requires 0 < lo.size < e.size && lo == e.(size := lo.size)
    requires hi == Extent(e.file, e.start + lo.size, e.size - lo.size)
    requires Tiled(m, sizes)
    ensures Tiled(m', sizes)
  {
    assert lo in m ==> Apart(lo, e);
    assert hi in m ==> Apart(hi, e);
    TradeOneForTwo(m, m', e, hi, lo);
    forall x, f, p | x in m && Covers(x, f, p) ensures Covered(m', f, p) {
      var y := if x != e then x else if Covers(lo, f, p) then lo else hi;
      assert y in m' && Covers(y, f, p);
    }
    hide Covered;
    StillCovered(m, m', sizes);
    SplitApart(m, m', sizes, e, lo, hi);
  }

  lemma SplitApart(m: multiset<Extent>, m': multiset<Extent>, sizes: Sizes, e: Extent, lo: Extent, hi: Extent)
    requires (forall x :: x in m ==> m[x] == 1 && Inside(x, sizes)) && forall a, b :: a in m && b in m && a != b ==> Apart(a, b)
    requires e in m && 0 < lo.size < e.size && lo == e.(size := lo.size)
    requires hi == Extent(e.file, e.start + lo.size, e.size - lo.size) && lo !in m && hi !in m
    requires forall t :: m'[t] == if t == e then m[t] - 1 else if t == hi || t == lo then m[t] + 1 else m[t]
    ensures (forall x :: x in m' ==> m'[x] == 1 && Inside(x, sizes)) && forall a, b :: a in m' && b in m' && a != b ==> Apart(a, b)
  {
    forall x | x in m' ensures m'[x] == 1 && Inside(x, sizes) && ((x in m && x != e) || x == lo || x == hi) {
    }
    forall x | x in m && x != e ensures Apart(x, lo) && Apart(lo, x) && Apart(x, hi) && Apart(hi, x) {
      assert Apart(x, e);
    }
  }

  /** Gluing two neighbouring extents together keeps the tiling. */
  lemma TileMerge(m: multiset<Extent>, m': multiset<Extent>, sizes: Sizes, lo: Extent, hi: Extent)
    requires lo in m && hi in m && lo.file == hi.file && lo.start + lo.size == hi.start
    requires m' + multiset{lo} + multiset{hi} == m + multiset{Extent(lo.file, lo.start, lo.size + hi.size)}
    requires Tiled(m, sizes)
    ensures Tiled(m', sizes)
  {
    var e := Extent(lo.file, lo.start, lo.size + hi.size);
    assert e in m ==> Apart(e, lo);
    TradeTwoForOne(m, m', lo, hi, e);
    forall x, f, p | x in m && Covers(x, f, p) ensures Covered(m', f, p) {
      var y := if x == lo || x == hi then e else x;
      assert y in m' && Covers(y, f, p);
    }
    hide Covered;
    StillCovered(m, m', sizes);
    MergeApart(m, m', sizes, lo, hi, e);
  }

  lemma MergeApart(m: multiset<Extent>, m': multiset<Extent>, sizes: Sizes, lo: Extent, hi: Extent, e: Extent)
    requires (forall x :: x in m ==> m[x] == 1 && Inside(x, sizes)) && forall a, b :: a in m && b in m && a != b ==> Apart(a, b)
    requires lo in m && hi in m && lo.file == hi.file && lo.start + lo.size == hi.start && lo != hi
    requires e == Extent(lo.file, lo.start, lo.size + hi.size) && e !in m
    requires forall t :: m'[t] == if t == lo || t == hi then m[t] - 1 else if t == e then m[t] + 1 else m[t]
    ensures (forall x :: x in m' ==> m'[x] == 1 && Inside(x, sizes)) && forall a, b :: a in m' && b in m' && a != b ==> Apart(a, b)
  {
    forall x | x in m' ensures m'[x] == 1 && Inside(x, sizes) && ((x in m && x != lo && x != hi) || x == e) {
    }
    forall x | x in m && x != lo && x != hi ensures Apart(x, e) && Apart(e, x) {
      assert Apart(x, lo) && Apart(x, hi);
    }
  }

  /** Giving the last extent of a file back to the file system keeps the tiling. */
  lemma TileTruncate(m: multiset<Extent>, m': multiset<Extent>, sizes: Sizes, e: Extent)
    requires e in m && m' + multiset{e} == m && e.file in sizes && e.start + e.size >= sizes[e.file]
    requires Tiled(m, sizes)
    ensures Tiled(m', sizes[e.file := e.start])
  {
    var sizes' := sizes[e.file := e.start];
    assert forall x :: (m' + multiset{e})[x] == m[x];
    forall x | x in m' ensures m'[x] == 1 && Inside(x, sizes') {
      assert x in m && x != e && Apart(x, e);
    }
    forall f, p | f in sizes' && 0 <= p < sizes'[f]
      ensures Covered(m', f, p)
    {
      assert Covered(m, f, p);
      var x :| x in m && Covers(x, f, p);
      assert x in m' && Covers(x, f, p);
    }
  }
}
