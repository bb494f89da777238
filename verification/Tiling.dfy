/** How one new version changes the extents, the VAL files and the values of the other rows. */
module Tiling {
  import opened Bytes
  import opened Rows
  import opened Index

  // ---- one store ----

  /** Bytes stored at the end of a file lengthen that file and nothing else. */
  lemma StoreAtEnd(files: Files, file: nat, data: seq<byte>)
    requires |data| > 0
    ensures var store := FileOf(files, file); var files' := files[file := Splice(store, |store|, data)];
      && SizesOf(files') == SizesOf(files)[file := |store| + |data|]
      && (forall n: nat :: n <= |data| ==> Read(files', file, |store|, n) == data[..n])
      && (forall f: nat, at: nat, n: nat :: at + n <= |FileOf(files, f)| ==> Read(files', f, at, n) == Read(files, f, at, n))
  {
    var store := FileOf(files, file);
    SpliceReads(store, |store|, data);
    assert Splice(store, |store|, data) == store + data;
  }

  /** Bytes stored inside an extent change nothing outside it. */
  lemma StoreInside(files: Files, e: Extent, data: seq<byte>)
    requires Inside(e, SizesOf(files)) && 0 < |data| <= e.size
    ensures var files' := files[e.file := Splice(FileOf(files, e.file), e.start, data)];
      && SizesOf(files') == SizesOf(files)
      && Read(files', e.file, e.start, |data|) == data
      && (forall x: Extent, n: nat :: Inside(x, SizesOf(files)) && Apart(x, e) && n <= x.size ==>
            Read(files', x.file, x.start, n) == Read(files, x.file, x.start, n))
  {
    var store := files[e.file];
    var files' := files[e.file := Splice(store, e.start, data)];
    SpliceReads(store, e.start, data);
    forall x: Extent, n: nat | Inside(x, SizesOf(files)) && Apart(x, e) && n <= x.size
      ensures Read(files', x.file, x.start, n) == Read(files, x.file, x.start, n)
    {
    }
  }

  // ---- taking a slot ----

  /** Cutting a discarded extent in two trades it for its two halves. */
  lemma CutExtents(rows: seq<Row>, row: nat, ext: Option<nat>, rest: Row, kept: Row)
    requires row < |rows| && rows[row].rowSize > 0 && rest.rowSize > 0 && kept.rowSize > 0
    requires ext.Some? ==> ext.value < |rows| && ext.value != row && rows[ext.value].rowSize == 0
    ensures var more := if ext.Some? then rows[ext.value := rest] else rows + [rest];
      Extents(more[row := kept]) + multiset{ExtentOf(rows[row])}
      == Extents(rows) + multiset{ExtentOf(rest)} + multiset{ExtentOf(kept)}
  {
    var more := if ext.Some? then rows[ext.value := rest] else rows + [rest];
    FillExtents(rows, ext, rest);
    ExtentsSet(more, row, kept);
  }

  /** A row stored over an empty one, or behind the last, adds just its own extent. */
  lemma FillExtents(rows: seq<Row>, at: Option<nat>, r: Row)
    requires at.Some? ==> at.value < |rows| && rows[at.value].rowSize == 0
    ensures Extents(if at.Some? then rows[at.value := r] else rows + [r]) == Extents(rows) + Owned(r)
  {
    if at.Some? {
      ExtentsSet(rows, at.value, r);
      assert Extents(rows[at.value := r]) + Owned(rows[at.value]) == Extents(rows[at.value := r]);
    } else {
      ExtentsPush(rows, r);
    }
  }

  lemma CutTiled(rows: seq<Row>, slot: Slot, sizes: Sizes)
    requires slot.Reuse? && slot.row < |rows| && 0 < slot.keep < rows[slot.row].rowSize
    requires slot.ext.Some? ==> slot.ext.value < |rows| && slot.ext.value != slot.row && rows[slot.ext.value].rowSize == 0
    requires Tiled(Extents(rows), sizes)
    ensures Tiled(Extents(Carve(rows, slot)), sizes)
  {
    hide Tiled, Extents;
    var r := rows[slot.row];
    var rest := FreeRow(r.fileId, r.offset + slot.keep, r.rowSize - slot.keep);
    var kept := FreeRow(r.fileId, r.offset, slot.keep);
    CutExtents(rows, slot.row, slot.ext, rest, kept);
    ExtentsHas(rows, slot.row);
    TileSplit(Extents(rows), Extents(Carve(rows, slot)), sizes, ExtentOf(r), ExtentOf(kept), ExtentOf(rest));
  }

  /** Taking a slot keeps the tiling. */
  lemma CarveTiled(cfg: Config, split: bool, rows: seq<Row>, line: nat, req: nat, slot: Slot, sizes: Sizes)
    requires ConfigOk(cfg) && SlotOk(cfg, split, rows, line, req, slot)
    requires Tiled(Extents(rows), sizes)
    ensures Tiled(Extents(Carve(rows, slot)), sizes)
  {
    match slot
    case Append(_) =>
      ExtentsPush(rows, FreeRow(0, 0, 0));
      assert Extents(Carve(rows, slot)) == Extents(rows);
    case Reuse(row, keep, _) =>
      if keep < rows[row].rowSize {
        CutTiled(rows, slot, sizes);
      }
  }

  /** Carving touches only rows at or beyond the line, and what it leaves in the slot fits the request. */
  lemma CarveFrame(cfg: Config, split: bool, rows: seq<Row>, line: nat, req: nat, slot: Slot)
    requires ConfigOk(cfg) && SlotOk(cfg, split, rows, line, req, slot) && line <= |rows|
    ensures var c := Carve(rows, slot); var d := Target(rows, slot);
      && line <= d < |c|
      && (forall i :: 0 <= i < line ==> c[i] == rows[i])
      && (if slot.Append? || req == 0 then c[d].rowSize == 0 else c[d].rowSize >= req)
      && (RowsOk(rows) ==> RowsOk(c))
  {
  }

  // ---- storing the new version ----

  /** What a slot in a carved index must offer. */
  ghost predicate Ready(c: seq<Row>, slot: Slot, val: Payload, d: nat) {
    && d < |c|
    && (slot.Reuse? ==> d == slot.row)
    && (if slot.Append? || val.Inline? then c[d].rowSize == 0 else c[d].rowSize >= |val.data|)
  }

  /** The new version takes over the extent of the slot, or a fresh one at the end of a file. */
  lemma PlaceTiled(cfg: Config, files: Files, c: seq<Row>, rest: multiset<Extent>, slot: Slot, key: Key, val: Payload,
                   sync: nat, flags: Flags, d: nat)
    requires ConfigOk(cfg) && PayloadOk(val) && Ready(c, slot, val, d)
    requires Extents(c) == rest + Owned(c[d])
    requires Tiled(Extents(c), SizesOf(files))
    ensures Tiled(rest + Owned(NewRow(cfg, files, c, slot, key, val, sync, flags)),
                  SizesOf(NewFiles(cfg, files, c, slot, val)))
  {
    var placed := NewRow(cfg, files, c, slot, key, val, sync, flags);
    if val.Stored? {
      match slot
      case Append(file) =>
        var padded := val.data + Fill(cfg.padByte, PadSize(cfg, |val.data|) - |val.data|);
        StoreAtEnd(files, file, padded);
        GrowTiled(rest, Extents(c), files, file, padded, placed);
      case Reuse(row, _, _) =>
        ExtentsHas(c, row);
        StoreInside(files, ExtentOf(c[row]), val.data);
        assert Owned(placed) == Owned(c[row]);
    }
  }

  lemma GrowTiled(rest: multiset<Extent>, all: multiset<Extent>, files: Files, file: nat, data: seq<byte>, r: Row)
    requires all == rest + multiset{} && Tiled(all, SizesOf(files)) && |data| > 0
    requires ExtentOf(r) == Extent(file, |FileOf(files, file)|, |data|)
    ensures Tiled(rest + Owned(r), SizesOf(files)[file := |FileOf(files, file)| + |data|])
  {
    assert all == rest;
    TileGrow(rest, SizesOf(files), file, |data|);
  }

  /** The new version reads back as written. */
  lemma PlaceReads(cfg: Config, files: Files, c: seq<Row>, slot: Slot, key: Key, val: Payload, sync: nat, flags: Flags,
                   d: nat)
    requires ConfigOk(cfg) && PayloadOk(val) && Ready(c, slot, val, d)
    requires Tiled(Extents(c), SizesOf(files))
    ensures ValueOf(NewFiles(cfg, files, c, slot, val), NewRow(cfg, files, c, slot, key, val, sync, flags)) == val
  {
    if val.Stored? {
      match slot
      case Append(file) =>
        var padded := val.data + Fill(cfg.padByte, PadSize(cfg, |val.data|) - |val.data|);
        StoreAtEnd(files, file, padded);
        assert padded[..|val.data|] == val.data;
      case Reuse(row, _, _) =>
        ExtentsHas(c, row);
        StoreInside(files, ExtentOf(c[row]), val.data);
    }
  }

  /** No other row changes its value. */
  lemma PlaceFrame(cfg: Config, files: Files, c: seq<Row>, slot: Slot, val: Payload, d: nat, i: nat)
    requires ConfigOk(cfg) && PayloadOk(val) && Ready(c, slot, val, d) && i < |c| && i != d
    requires RowsOk(c) && Tiled(Extents(c), SizesOf(files))
    ensures ValueOf(NewFiles(cfg, files, c, slot, val), c[i]) == ValueOf(files, c[i])
  {
    if val.Stored? && c[i].rowSize > 0 {
      ExtentsHas(c, i);
      var x := ExtentOf(c[i]);
      assert Inside(x, SizesOf(files));
      match slot
      case Append(file) =>
        StoreAtEnd(files, file, val.data + Fill(cfg.padByte, PadSize(cfg, |val.data|) - |val.data|));
      case Reuse(row, _, _) =>
        ExtentsHas(c, row);
        RowsApart(c, SizesOf(files), i, row);
        StoreInside(files, ExtentOf(c[row]), val.data);
    }
  }
}
