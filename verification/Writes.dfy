/** What a write does to the rows, told from rows, flags and values alone: when it stores in place, when it parks the
    old version, when it does nothing, and how much space it takes. */
module Writes {
  import opened Bits
  import opened Bytes
  import opened Rows
  import opened Index
  import opened Refine
  import opened History
  import opened Newest
  import opened Runs
  import opened Space

  /** Every row but one is there as it was, with the bytes it had. */
  ghost predicate OthersStay(s: State, t: State, row: nat) {
    && |t.rows| == |s.rows|
    && forall i :: 0 <= i < |s.rows| && i != row ==>
         t.rows[i] == s.rows[i] && ValueOf(t.files, t.rows[i]) == ValueOf(s.files, s.rows[i])
  }

  /** The record is not locked against the write. */
  predicate Writable(r: Row, a: WriteArgs) {
    a.unlock || !(r.flags.readOnly || (r.flags.appendOnly && !a.grows))
  }

  /** The value can be stored where the old one lies. */
  predicate FitsIn(r: Row, val: Payload) {
    match val
    case Inline(_, _, _) => r.rowSize == 0
    case Stored(data) => 0 < |data| <= r.rowSize
  }

  predicate InPlaceFor(s: State, r: Row, a: WriteArgs) {
    && FitsIn(r, a.val)
    && (!a.revert || (if a.flags.Some? then a.flags.value else r.flags).noRevert || a.key in s.chg)
  }

  /** The version of row `row` stands at `line`, stamped by this step, with its bytes. */
  ghost predicate ParkedAt(s: State, row: nat, t: State, line: nat)
    requires row < |s.rows|
  {
    && t.n <= line < |t.rows| && t.rows[line] == s.rows[row].(ver := s.sync)
    && ValueOf(t.files, t.rows[line]) == ValueOf(s.files, s.rows[row])
  }

  lemma KindOfChange(s: State, a: WriteArgs)
    requires Inv(s) && PayloadOk(a.val) && a.key in s.table
    requires var r := s.rows[s.table[a.key]]; Writable(r, a) && (a.overwrite || ValueOf(s.files, r) != a.val)
    ensures Kind(s, a) == if InPlaceFor(s, s.rows[s.table[a.key]], a) then InPlace else Moved
  {
    hide ValueOf, Tiled, Extents, SizesOf;
    var row := s.table[a.key];
    if !a.overwrite && Same(s.files, s.rows[row], a.val) {
      SameReads(s, row, a.val);
    }
  }

  lemma InPlaceStays(s: State, key: Key, val: Payload, flags: Flags)
    requires Inv(s) && key in s.table && Fits(s.rows[s.table[key]], val)
    ensures OthersStay(s, Overwrite(s, key, val, flags), s.table[key])
  {
    var row := s.table[key];
    var t := Overwrite(s, key, val, flags);
    forall i: nat | i < |s.rows| && i != row
      ensures t.rows[i] == s.rows[i] && ValueOf(t.files, t.rows[i]) == ValueOf(s.files, s.rows[i])
    {
      if val.Stored? {
        StoreFrame(s, row, val.data, i);
      }
    }
  }

  lemma MovedParks(cfg: Config, s: State, a: WriteArgs, slot: Slot)
    requires Inv(s) && WriteOk(cfg, s, a, slot) && Kind(s, a) == Moved
    ensures ParkedAt(s, s.table[a.key], Write(cfg, s, a, slot), Line(cfg, s, a.revert))
  {
    hide RowsOk, Tiled, PlacingOk, ValueOf, Place, Extents, SizesOf;
    var line := Line(cfg, s, a.revert);
    PlaceOkTouched(cfg, s, a, slot);
    MovedSurvives(cfg, s, a, slot, 0);
    MoveLayout(Touch(s, a.key, line, a.revert), Place(cfg, s, slot, a.key, a.val, NewFlags(s, a)),
               a.key, a.val, NewFlags(s, a), line);
  }

  /** A write that does change an open record: all other rows stay as they are if and only if the value fits where
      the old one lies and REVERT is off, the record opts out of it, or the key has changed before in this session.
      Otherwise the old version is parked where reuse may begin, and still reads as it did. */
  lemma StoredInPlaceExactly(cfg: Config, s: State, a: WriteArgs, slot: Slot)
    requires Inv(s) && Stamped(s) && WriteOk(cfg, s, a, slot) && a.key in s.table
    requires var r := s.rows[s.table[a.key]]; Writable(r, a) && (a.overwrite || ValueOf(s.files, r) != a.val)
    ensures var row := s.table[a.key]; var t := Write(cfg, s, a, slot);
      var line := if a.revert then Min(Max(s.safeLine, s.n + cfg.minSafe), |s.rows|) else s.n;
      && (OthersStay(s, t, row) <==> InPlaceFor(s, s.rows[row], a))
      && (!InPlaceFor(s, s.rows[row], a) ==> ParkedAt(s, row, t, line))
  {
    hide ValueOf, Tiled, Extents, SizesOf, RowsOk, Place;
    KindOfChange(s, a);
    if Kind(s, a) == InPlace {
      InPlaceStays(s, a.key, a.val, NewFlags(s, a));
    } else {
      MovedParks(cfg, s, a, slot);
    }
  }

  /** f_append on a record is a write without REVERT, without UNLOCK and without splitting: a locked record stays as it
      is, and else the value is stored in place if and only if it fits; the old version is then parked right behind
      the records. */
  lemma AppendOnRecord(cfg: Config, s: State, a: WriteArgs, slot: Slot)
    requires Inv(s) && Stamped(s) && LegalOp(cfg, s, OpAppend(a, slot)) && a.key in s.table
    ensures var row := s.table[a.key]; var r := s.rows[row]; var t := Step(cfg, s, OpAppend(a, slot));
      && (r.flags.readOnly || (r.flags.appendOnly && !a.grows) ==> t == s)
      && (!(r.flags.readOnly || (r.flags.appendOnly && !a.grows)) ==>
            (OthersStay(s, t, row) <==> FitsIn(r, a.val)) && (!FitsIn(r, a.val) ==> ParkedAt(s, row, t, s.n)))
      && (slot.Reuse? ==> slot.row < |s.rows| && slot.keep == s.rows[slot.row].rowSize)
  {
    hide ValueOf, Tiled, Extents, SizesOf, RowsOk, Place, OthersStay, ParkedAt, Write;
    var b := AsOverwrite(a);
    if Writable(s.rows[s.table[a.key]], b) {
      StoredInPlaceExactly(cfg, s, b, slot);
    } else {
      RefusedStays(cfg, s, b, slot);
    }
  }

  lemma RefusedStays(cfg: Config, s: State, a: WriteArgs, slot: Slot)
    requires Inv(s) && WriteOk(cfg, s, a, slot) && a.key in s.table && !Writable(s.rows[s.table[a.key]], a)
    ensures Write(cfg, s, a, slot) == s
  {
  }

  // ---- writes that store nothing ----

  lemma SameExactly(s: State, row: nat, val: Payload)
    requires Inv(s) && Filled(s) && row < s.n && PayloadOk(val)
    ensures Same(s.files, s.rows[row], val) <==> ValueOf(s.files, s.rows[row]) == val
  {
    var r := s.rows[row];
    if r.rowSize > 0 {
      ExtentsHas(s.rows, row);
      assert Inside(ExtentOf(r), SizesOf(s.files));
      ReadsFull(s.files, r);
    }
  }

  lemma ReadsFull(files: Files, r: Row)
    requires r.fileId in files && r.offset + r.valSize <= |files[r.fileId]|
    ensures |Read(files, r.fileId, r.offset, r.valSize)| == r.valSize
  {
  }

  /** A write to a record leaves the database as it is if and only if the record is locked against it, or value and
      flags are the ones it has and storing them again was not asked for. When only the flags are new, only they change,
      and the version of the row stays. */
  lemma IdleExactly(cfg: Config, s: State, a: WriteArgs, slot: Slot)
    requires Inv(s) && Filled(s) && WriteOk(cfg, s, a, slot) && a.key in s.table
    ensures var row := s.table[a.key]; var r := s.rows[row]; var f := if a.flags.Some? then a.flags.value else r.flags;
      var there := !a.overwrite && ValueOf(s.files, r) == a.val;
      && (Write(cfg, s, a, slot) == s <==> !Writable(r, a) || (there && f == r.flags))
      && (Writable(r, a) && there && f != r.flags ==>
            Write(cfg, s, a, slot) == s.(rows := s.rows[row := r.(flags := f)], sync := Next(s.sync)))
  {
    hide ValueOf, Tiled, Extents, SizesOf, RowsOk, Place, Same;
    SameExactly(s, s.table[a.key], a.val);
    NextMoves(s.sync);
  }

  lemma NextMoves(sync: nat)
    ensures Next(sync) != sync
  {
  }

  /** The step counter is the masked one of the source. */
  lemma NextIsMasked(sync: nat)
    ensures Next(sync) == And(sync + 1, 0x7FF_FFFF_FFFF)
  {
    hide And;
    Pow43();
    AndLow(sync + 1, 43);
  }

  lemma Pow43()
    ensures Pow2(43) == 0x800_0000_0000
  {
    assert Pow2(3) == 8 && Pow2(13) == 0x2000;
    assert Pow2(23) == 0x80_0000;
    assert Pow2(33) == 0x2_0000_0000;
  }

  // ---- the record written ----

  lemma PlacedRecord(cfg: Config, s: State, slot: Slot, key: Key, val: Payload, flags: Flags)
    requires cfg.reservedRate >= 0.0
    requires slot.Reuse? ==> slot.row < |s.rows| && slot.keep <= s.rows[slot.row].rowSize
    requires slot.Reuse? && slot.ext.Some? ==> slot.ext.value < |s.rows|
    ensures var r := Place(cfg, s, slot, key, val, flags).row;
      r.key == key && r.ver == s.sync && r.flags == flags && r.valSize == (if val.Inline? then val.size else |val.data|)
  {
    hide NewFiles;
  }

  /** What a record just stored says of itself. */
  ghost predicate Records(s: State, a: WriteArgs, flags: Flags, t: State) {
    && a.key in t.table && t.table[a.key] < |t.rows|
    && var live := t.rows[t.table[a.key]];
       && live.key == a.key && live.ver == s.sync && live.flags == flags
       && live.valSize == (if a.val.Inline? then a.val.size else |a.val.data|)
  }

  lemma NewStamped(cfg: Config, s: State, a: WriteArgs, slot: Slot)
    requires Inv(s) && WriteOk(cfg, s, a, slot) && a.key !in s.table
    ensures Records(s, a, if a.flags.Some? then a.flags.value else NO_FLAGS, InsertNew(cfg, s, a, slot))
  {
    hide Inv, Place, Carve;
    PlacedRecord(cfg, s, slot, a.key, a.val, NewFlags(s, a));
    PlaceBounds(cfg, s, a, slot);
  }

  lemma PlaceBounds(cfg: Config, s: State, a: WriteArgs, slot: Slot)
    requires Inv(s) && WriteOk(cfg, s, a, slot)
    ensures var p := Place(cfg, s, slot, a.key, a.val, NewFlags(s, a)); Line(cfg, s, a.revert) <= p.d < |p.c|
  {
    hide NewRow, NewFiles, Tiled, RowsOk, TableOk;
  }

  lemma ChangedStamped(cfg: Config, s: State, a: WriteArgs, slot: Slot)
    requires Inv(s) && WriteOk(cfg, s, a, slot) && (Kind(s, a) == InPlace || Kind(s, a) == Moved)
    ensures Records(s, a, if a.flags.Some? then a.flags.value else s.rows[s.table[a.key]].flags, Write(cfg, s, a, slot))
  {
    hide Tiled, Extents, SizesOf, RowsOk, Place, Carve;
    PlacedRecord(cfg, s, slot, a.key, a.val, NewFlags(s, a));
    PlaceBounds(cfg, s, a, slot);
  }

  /** A record just stored carries the flags asked for, those it had, or none, and the number of this step. */
  lemma RecordStamped(cfg: Config, s: State, a: WriteArgs, slot: Slot)
    requires Inv(s) && WriteOk(cfg, s, a, slot)
    requires a.key in s.table ==>
      var r := s.rows[s.table[a.key]]; Writable(r, a) && (a.overwrite || ValueOf(s.files, r) != a.val)
    ensures Records(s, a, if a.flags.Some? then a.flags.value
                           else if a.key in s.table then s.rows[s.table[a.key]].flags else NO_FLAGS,
                     Write(cfg, s, a, slot))
  {
    hide ValueOf, Tiled, Extents, SizesOf, RowsOk, Records, InsertNew, MoveAt, Overwrite, Place;
    if a.key in s.table {
      KindOfChange(s, a);
      ChangedStamped(cfg, s, a, slot);
    } else {
      NewStamped(cfg, s, a, slot);
    }
  }

  // ---- how much space a new version takes ----

  /** Rounded up by the reserve rate, but never below the smallest size. */
  ghost predicate Padded(cfg: Config, size: nat, len: nat) {
    && len >= cfg.minValueSize && len as real + 1.0 > size as real * (1.0 + cfg.reservedRate)
    && (len == cfg.minValueSize || len as real <= size as real * (1.0 + cfg.reservedRate))
  }

  lemma PadSizeIs(cfg: Config, size: nat)
    requires cfg.reservedRate >= 0.0
    ensures Padded(cfg, size, PadSize(cfg, size))
  {
    assert size as real * (1.0 + cfg.reservedRate) == size as real + size as real * cfg.reservedRate;
  }

  /** A value for a VAL file takes a padded extent at the end of a file, or a discarded extent: the whole of it,
      unless splitting is on and what is left over is worth a row, at least 64 bytes and the smallest size. Then
      it is cut to the padded size and the rest becomes a row without a key. */
  lemma TakesSpace(cfg: Config, split: bool, s: State, slot: Slot, key: Key, data: seq<byte>, flags: Flags, line: nat)
    returns (pad: nat)
    requires ConfigOk(cfg) && data != [] && line <= |s.rows| && SlotOk(cfg, split, s.rows, line, |data|, slot)
    ensures Padded(cfg, |data|, pad) && pad >= |data|
    ensures var p := Place(cfg, s, slot, key, Stored(data), flags);
      match slot
      case Append(file) =>
        var end := |FileOf(s.files, file)|;
        && p.row == Row(key, file, end, pad, |data|, s.sync, flags)
        && file in p.files && p.files[file] == FileOf(s.files, file) + data + Fill(cfg.padByte, pad - |data|)
      case Reuse(row, _, ext) =>
        var was := s.rows[row];
        var cut := split && was.rowSize >= pad + 64 && was.rowSize >= pad + cfg.minValueSize;
        && p.row == Row(key, was.fileId, was.offset, if cut then pad else was.rowSize, |data|, s.sync, flags)
        && (if cut then
              var at := if ext.Some? then ext.value else |s.rows|;
              at < |p.c| && p.c[at] == FreeRow(was.fileId, was.offset + pad, was.rowSize - pad)
            else p.c == s.rows)
  {
    pad := PadSize(cfg, |data|);
    PadSizeIs(cfg, |data|);
  }
}
