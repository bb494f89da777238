/** The database object: the steps of the index as they are carried out, field by field. */
module Db {
  import opened Bytes
  import opened CheckScan
  import opened Rows
  import opened Index
  import opened Refine
  import opened Runs
  import opened Restore
  import opened Recycle
  import opened Space

  /** The outcomes a search for a discarded row does not decide itself: what the row cache offers,
      which window of the history is scanned, and which VAL file has room. */
  datatype Luck = Luck(cached: Option<nat>, pick: nat, file: nat)

  /** How many rows lie in front of window `k`. */
  function RowsBefore(k: nat, window: nat): nat {
    k * window
  }

  predicate FitsRow(r: Row, req: nat) {
    if req == 0 then r.rowSize == 0 else r.rowSize >= req
  }

  /** Reading rows `start` to `stop` backwards, `dead` is the first one that has room: an empty row for an inline value,
      an extent long enough for any other; and there is none only when no row has room. */
  ghost predicate LastFit(rows: seq<Row>, start: nat, stop: nat, req: nat, dead: Option<nat>)
    requires stop <= |rows|
  {
    && (dead.Some? ==> start <= dead.value < stop
                       && (if req == 0 then rows[dead.value].rowSize == 0 else rows[dead.value].rowSize >= req))
    && forall i :: (if dead.Some? then dead.value + 1 else start) <= i < stop ==>
         if req == 0 then rows[i].rowSize > 0 else rows[i].rowSize < req
  }

  /** The empty row passed last takes what is cut off, if there is one. */
  ghost predicate LastEmpty(rows: seq<Row>, from: nat, stop: nat, ext: Option<nat>)
    requires stop <= |rows|
  {
    && (ext.Some? ==> from <= ext.value < stop && rows[ext.value].rowSize == 0)
    && forall i :: from <= i < (if ext.Some? then ext.value else stop) ==> rows[i].rowSize > 0
  }

  class JDb {
    const cfg: Config
    const windowSize: nat
    var rows: seq<Row>
    var nRecords: nat
    var safeLine: nat
    var chgKeys: set<Key>
    var keyTable: map<Key, nat>
    var files: Files
    var syncId: nat

    ghost function Snap(): State
      reads this
    {
      State(rows, nRecords, safeLine, chgKeys, keyTable, files, syncId)
    }

    ghost predicate Valid()
      reads this
    {
      Inv(Snap()) && Filled(Snap()) && ConfigOk(cfg) && windowSize > 0
    }

    constructor (cfg: Config, windowSize: nat)
      requires ConfigOk(cfg) && windowSize > 0
      ensures Valid() && Abs(Snap()) == map[]
      ensures this.cfg == cfg && this.windowSize == windowSize
    {
      this.cfg := cfg;
      this.windowSize := windowSize;
      rows, nRecords, safeLine, chgKeys, keyTable, files, syncId := [], 0, 0, {}, map[], map[], 0;
    }

    /** f_open: the session starts with nothing changed. */
    method Open()
      requires Valid()
      modifies this`safeLine, this`chgKeys
      ensures Valid() && Snap() == NewSession(old(Snap()))
    {
      safeLine := nRecords;
      chgKeys := {};
    }

    ghost predicate Settings()
      reads this
    {
      ConfigOk(cfg) && windowSize > 0 && nRecords <= |rows|
    }

    /** The row cache only offers rows that fit, and the window is one of those the history divides into. */
    ghost predicate LuckOk(luck: Luck, line: nat, req: nat, maxWindow: nat)
      requires Settings() && line <= |rows|
      reads this
    {
      && (luck.cached.Some? ==> line <= luck.cached.value < |rows| && FitsRow(rows[luck.cached.value], req))
      && (maxWindow > 0 ==> luck.pick <= (|rows| - line) / Min(maxWindow, windowSize))
    }

    /** Cuts a discarded extent to size when the request leaves enough over; the rest goes to `ext` or to a new row. */
    method SplitRow(row: nat, req: nat, split: bool, ext: Option<nat>) returns (ghost slot: Slot)
      requires Settings() && row < |rows| && FitsRow(rows[row], req)
      requires ext.Some? ==> row < ext.value < |rows| && rows[ext.value].rowSize == 0
      modifies this`rows
      ensures slot.Reuse? && slot.row == row && SlotOk(cfg, split, old(rows), row, req, slot)
      ensures rows == Carve(old(rows), slot)
      ensures slot.ext == if slot.keep < old(rows)[row].rowSize then ext else None
    {
      var r := rows[row];
      slot := Reuse(row, r.rowSize, None);
      if req > 0 && split {
        var splitSize := PadSize(cfg, req);
        if r.rowSize >= splitSize + Max(64, cfg.minValueSize) {
          var rest := FreeRow(r.fileId, r.offset + splitSize, r.rowSize - splitSize);
          if ext.None? {
            rows := rows + [rest];
          } else {
            rows := rows[ext.value := rest];
          }
          rows := rows[row := FreeRow(r.fileId, r.offset, splitSize)];
          slot := Reuse(row, splitSize, ext);
        }
      }
    }

    /** The window is read backwards; an empty row passed on the way can take the rest of a split. */
    method ScanWindow(start: nat, stop: nat, req: nat, split: bool, ghost file: nat)
      returns (dead: Option<nat>, ghost slot: Slot)
      requires Settings() && start <= stop <= |rows|
      modifies this`rows
      ensures SlotOk(cfg, split, old(rows), start, req, slot)
      ensures if dead.None? then slot == Append(file) else slot.Reuse? && slot.row == dead.value
      ensures rows == if dead.None? then old(rows) else Carve(old(rows), slot)
      ensures LastFit(old(rows), start, stop, req, dead)
      ensures dead.Some? && slot.keep < old(rows)[dead.value].rowSize ==> LastEmpty(old(rows), dead.value + 1, stop, slot.ext)
    {
      hide Carve;
      var row := stop;
      var ext: Option<nat> := None;
      while row > start
        invariant start <= row <= stop && rows == old(rows) && LastFit(rows, row, stop, req, None)
        invariant req > 0 ==> LastEmpty(rows, row, stop, ext)
        invariant req == 0 ==> ext == None
      {
        row := row - 1;
        if FitsRow(rows[row], req) {
          slot := SplitRow(row, req, split, ext);
          dead := Some(row);
          return;
        } else if rows[row].rowSize == 0 {
          ext := Some(row);
        }
      }
      dead := None;
      slot := Append(file);
    }

    /** What the scan of window number `pick` behind the line finds. */
    ghost predicate FoundInWindow(rows: seq<Row>, line: nat, req: nat, maxWindow: nat, pick: nat, dead: Option<nat>)
      requires maxWindow > 0 && windowSize > 0
    {
      var window := Min(maxWindow, windowSize);
      var start := line + RowsBefore(pick, window);
      start <= |rows| && LastFit(rows, start, Min(|rows|, start + window), req, dead)
    }

    /** Looks for a fitting row at or beyond the line: first in the row cache, then in one window. */
    method FindDead(line: nat, req: nat, split: bool, maxWindow: nat, luck: Luck)
      returns (dead: Option<nat>, ghost slot: Slot)
      requires Settings() && line <= |rows| && LuckOk(luck, line, req, maxWindow)
      modifies this`rows
      ensures SlotOk(cfg, split, old(rows), line, req, slot)
      ensures if dead.None? then slot == Append(luck.file) else slot.Reuse? && slot.row == dead.value
      ensures rows == if dead.None? then old(rows) else Carve(old(rows), slot)
      ensures luck.cached.Some? ==> dead == luck.cached
      ensures luck.cached.None? && maxWindow == 0 ==> dead == None
      ensures luck.cached.None? && maxWindow > 0 ==> FoundInWindow(old(rows), line, req, maxWindow, luck.pick, dead)
    {
      hide RowsBefore, Carve;
      dead := None;
      slot := Append(luck.file);
      if luck.cached.Some? {
        dead := luck.cached;
        slot := SplitRow(luck.cached.value, req, split, None);
      } else if maxWindow > 0 {
        var window := Min(maxWindow, windowSize);
        MultipleFits(luck.pick, |rows| - line, window);
        var start := line + RowsBefore(luck.pick, window);
        dead, slot := ScanWindow(start, Min(|rows|, start + window), req, split, luck.file);
      }
    }

    /** Where reuse may begin; under REVERT the first change of a key also extends SAFE by one row. */
    method DrawLine(key: Key, revert: bool) returns (line: nat)
      requires nRecords <= |rows|
      modifies this`chgKeys, this`safeLine
      ensures line == if revert then Min(Max(old(safeLine), nRecords + cfg.minSafe), |rows|) else nRecords
      ensures chgKeys == old(chgKeys) + (if revert then {key} else {})
      ensures safeLine == if revert && key !in old(chgKeys) then line + 1 else old(safeLine)
    {
      line := nRecords;
      if revert {
        line := Min(Max(safeLine, nRecords + cfg.minSafe), |rows|);
        if key !in chgKeys {
          chgKeys := chgKeys + {key};
          safeLine := line + 1;
        }
      }
    }

    /** _get_dead_row: a discarded row fit for `req` bytes at or beyond the line, or none. */
    method GetDeadRow(key: Key, req: nat, revert: bool, split: bool, maxWindow: nat, luck: Luck)
      returns (line: nat, dead: Option<nat>, ghost slot: Slot)
      requires Settings() && LuckOk(luck, Line(cfg, Snap(), revert), req, maxWindow)
      modifies this`rows, this`chgKeys, this`safeLine
      ensures line == if revert then Min(Max(old(safeLine), nRecords + cfg.minSafe), |old(rows)|) else nRecords
      ensures SlotOk(cfg, split, old(rows), line, req, slot)
      ensures if dead.None? then slot == Append(luck.file) else slot.Reuse? && slot.row == dead.value
      ensures rows == if dead.None? then old(rows) else Carve(old(rows), slot)
      ensures Snap() == Touch(old(Snap()), key, line, revert).(rows := rows)
      ensures luck.cached.Some? ==> dead == luck.cached
      ensures luck.cached.None? && maxWindow == 0 ==> dead == None
      ensures luck.cached.None? && maxWindow > 0 ==> FoundInWindow(old(rows), line, req, maxWindow, luck.pick, dead)
    {
      hide RowsBefore, Carve;
      line := DrawLine(key, revert);
      dead := None;
      slot := Append(luck.file);
      if |rows| > line {
        dead, slot := FindDead(line, req, split, maxWindow, luck);
      } else if maxWindow > 0 {
        MultipleFits(luck.pick, 0, Min(maxWindow, windowSize));
      }
    }

    /** Stores the value in the extent of the discarded row, or in a fresh padded one, behind which a row is added. */
    method PlaceValue(key: Key, val: Payload, flags: Flags, dead: Option<nat>, file: nat,
                      ghost slot: Slot, ghost s0: State) returns (d: nat, r: Row)
      requires Settings() && s0.files == files && s0.sync == syncId
      requires slot.Reuse? ==> slot.row < |s0.rows| && slot.keep <= s0.rows[slot.row].rowSize
      requires slot.Reuse? && slot.ext.Some? ==> slot.ext.value < |s0.rows|
      requires if dead.None? then slot == Append(file) && rows == s0.rows
               else slot.Reuse? && slot.row == dead.value && rows == Carve(s0.rows, slot)
      modifies this`rows, this`files
      ensures Placing(rows, d, r, files) == Place(cfg, s0, slot, key, val, flags)
    {
      if dead.None? {
        d := |rows|;
        rows := rows + [FreeRow(0, 0, 0)];
      } else {
        d := dead.value;
      }
      match val
      case Inline(typeId, bits, size) =>
        r := Row(key, typeId, bits, 0, size, syncId, flags);
      case Stored(data) =>
        if dead.None? {
          var padded := data + Fill(cfg.padByte, PadSize(cfg, |data|) - |data|);
          var end := |FileOf(files, file)|;
          r := Row(key, file, end, |padded|, |data|, syncId, flags);
          files := files[file := Splice(FileOf(files, file), end, padded)];
        } else {
          var e := rows[d];
          r := Row(key, e.fileId, e.offset, e.rowSize, |data|, syncId, flags);
          files := files[e.fileId := Splice(FileOf(files, e.fileId), e.offset, data)];
        }
    }

    /** What stood at the line fills the slot, `parked` goes to the line, `placed` into the hole. */
    method ParkAndPlace(d: nat, line: nat, hole: nat, parked: Row, placed: Row)
      requires hole < line <= d < |rows|
      modifies this`rows
      ensures rows == Shift(old(rows), d, line, hole, parked, placed)
    {
      if d > line {
        rows := rows[d := rows[line]];
      }
      rows := rows[line := parked];
      rows := rows[hole := placed];
    }

    /** The same around a new record: the first SAFE row moves to the line. */
    method MakeRoom(d: nat, line: nat, first: nat, placed: Row)
      requires first <= line <= d < |rows|
      modifies this`rows
      ensures rows == Shift(old(rows), d, line, first, old(rows)[first], placed)
    {
      if d > line {
        rows := rows[d := rows[line]];
      }
      if line > first {
        rows := rows[line := rows[first]];
      }
      rows := rows[first := placed];
    }

    /** An existing key whose new version needs another row: the old version is parked at the line. */
    method MoveVersion(a: WriteArgs, flags: Flags, maxWindow: nat, luck: Luck) returns (ghost slot: Slot)
      requires Settings() && a.key in keyTable && keyTable[a.key] < nRecords
      requires LuckOk(luck, Line(cfg, Snap(), a.revert), Need(a.val), maxWindow)
      modifies this
      ensures SlotOk(cfg, a.split, old(rows), Line(cfg, old(Snap()), a.revert), Need(a.val), slot)
      ensures Snap() == MoveAt(Touch(old(Snap()), a.key, Line(cfg, old(Snap()), a.revert), a.revert),
                               Place(cfg, old(Snap()), slot, a.key, a.val, flags),
                               a.key, Line(cfg, old(Snap()), a.revert))
    {
      hide Place, LastFit, FoundInWindow;
      ghost var s0 := Snap();
      var row := keyTable[a.key];
      var line, dead;
      line, dead, slot := GetDeadRow(a.key, Need(a.val), a.revert, a.split, maxWindow, luck);
      var d, r := PlaceValue(a.key, a.val, flags, dead, luck.file, slot, s0);
      PlacedBeyond(cfg, a.split, s0, slot, a.key, a.val, flags, line);
      ParkAndPlace(d, line, row, rows[row].(ver := syncId), r);
      syncId := Next(syncId);
    }

    /** A new key: the first DEAD row fills the slot, the first SAFE row moves behind SAFE, the key becomes row `n`. */
    method InsertVersion(a: WriteArgs, flags: Flags, maxWindow: nat, luck: Luck) returns (ghost slot: Slot)
      requires Settings()
      requires LuckOk(luck, Line(cfg, Snap(), a.revert), Need(a.val), maxWindow)
      modifies this
      ensures SlotOk(cfg, a.split, old(rows), Line(cfg, old(Snap()), a.revert), Need(a.val), slot)
      ensures Snap() == Advance(InsertAt(Touch(old(Snap()), a.key, Line(cfg, old(Snap()), a.revert), a.revert),
                                         Place(cfg, old(Snap()), slot, a.key, a.val, flags),
                                         a.key, Line(cfg, old(Snap()), a.revert)),
                                if a.revert then 0 else 1)
    {
      hide Place, Carve, SlotOk, LastFit, FoundInWindow;
      ghost var s0 := Snap();
      var line, dead;
      line, dead, slot := GetDeadRow(a.key, Need(a.val), a.revert, a.split, maxWindow, luck);
      SlotFits(cfg, a.split, s0.rows, line, Need(a.val), slot);
      var d, r := PlaceValue(a.key, a.val, flags, dead, luck.file, slot, s0);
      PlacedBeyond(cfg, a.split, s0, slot, a.key, a.val, flags, line);
      MakeRoom(d, line, nRecords, r);
      safeLine := safeLine + (if a.revert then 0 else 1);
      keyTable := keyTable[a.key := nRecords];
      nRecords := nRecords + 1;
      syncId := Next(syncId);
    }

    /** The value fits where the old one lies and is stored over it. */
    method OverwriteRow(key: Key, val: Payload, flags: Flags)
      requires key in keyTable && keyTable[key] < |rows|
      modifies this`rows, this`files, this`syncId
      ensures Snap() == Overwrite(old(Snap()), key, val, flags)
    {
      var row := keyTable[key];
      var r := rows[row];
      match val {
        case Inline(typeId, bits, size) =>
          rows := rows[row := Row(key, typeId, bits, 0, size, syncId, flags)];
        case Stored(data) =>
          files := files[r.fileId := Splice(FileOf(files, r.fileId), r.offset, data)];
          rows := rows[row := Row(r.key, r.fileId, r.offset, r.rowSize, |data|, syncId, flags)];
      }
      syncId := Next(syncId);
    }

    /** f_write: false when the write is refused or changes nothing. */
    method FWrite(a: WriteArgs, maxWindow: nat, luck: Luck) returns (ok: bool, ghost slot: Slot)
      requires Valid() && PayloadOk(a.val)
      requires LuckOk(luck, Line(cfg, Snap(), a.revert), Need(a.val), maxWindow)
      modifies this
      ensures WriteOk(cfg, old(Snap()), a, slot) && Snap() == Write(cfg, old(Snap()), a, slot)
      ensures Valid() && Abs(Snap()) == Put(old(Abs(Snap())), a)
      ensures ok <==> Kind(old(Snap()), a) != Refused && Kind(old(Snap()), a) != Unchanged
    {
      ghost var s0 := Snap();
      if a.key in keyTable {
        ok, slot := WriteExisting(a, maxWindow, luck);
      } else {
        slot := WriteNew(a, maxWindow, luck);
        ok := true;
      }
      WriteRefines(cfg, s0, a, slot);
      FilledWrite(cfg, s0, a, slot);
    }

    method WriteNew(a: WriteArgs, maxWindow: nat, luck: Luck) returns (ghost slot: Slot)
      requires Valid() && PayloadOk(a.val) && a.key !in keyTable
      requires LuckOk(luck, Line(cfg, Snap(), a.revert), Need(a.val), maxWindow)
      modifies this
      ensures WriteOk(cfg, old(Snap()), a, slot) && Snap() == Write(cfg, old(Snap()), a, slot)
    {
      slot := InsertVersion(a, if a.flags.Some? then a.flags.value else NO_FLAGS, maxWindow, luck);
    }

    method WriteExisting(a: WriteArgs, maxWindow: nat, luck: Luck) returns (ok: bool, ghost slot: Slot)
      requires Valid() && PayloadOk(a.val) && a.key in keyTable
      requires LuckOk(luck, Line(cfg, Snap(), a.revert), Need(a.val), maxWindow)
      modifies this
      ensures WriteOk(cfg, old(Snap()), a, slot) && Snap() == Write(cfg, old(Snap()), a, slot)
      ensures ok <==> Kind(old(Snap()), a) != Refused && Kind(old(Snap()), a) != Unchanged
    {
      hide Tiled, Extents, SizesOf, RowsOk, Place, MoveAt, Overwrite, SetFlags, Filled;
      slot := Append(luck.file);
      var row := keyTable[a.key];
      var r := rows[row];
      var flags := if a.flags.Some? then a.flags.value else r.flags;
      if r.flags.readOnly && !a.unlock {
        return false, slot;
      }
      if r.flags.appendOnly && !a.unlock && !a.grows {
        return false, slot;
      }
      if !a.overwrite && Same(files, r, a.val) {
        ok := WriteFlags(a.key, flags);
      } else {
        slot := ChangeVersion(a, flags, maxWindow, luck);
        ok := true;
      }
    }

    /** f_write_key_flags: the value is already there; only a change of preferences touches the row. */
    method WriteFlags(key: Key, flags: Flags) returns (changed: bool)
      requires key in keyTable && keyTable[key] < |rows|
      modifies this`rows, this`syncId
      ensures changed <==> flags != old(rows)[keyTable[key]].flags
      ensures Snap() == if changed then SetFlags(old(Snap()), key, flags) else old(Snap())
    {
      var row := keyTable[key];
      changed := flags != rows[row].flags;
      if changed {
        rows := rows[row := rows[row].(flags := flags)];
        syncId := Next(syncId);
      }
    }

    /** The stored value does change: in its own extent when no history is owed for it, else in another row. */
    method ChangeVersion(a: WriteArgs, flags: Flags, maxWindow: nat, luck: Luck) returns (ghost slot: Slot)
      requires Settings() && a.key in keyTable && keyTable[a.key] < nRecords
      requires LuckOk(luck, Line(cfg, Snap(), a.revert), Need(a.val), maxWindow)
      modifies this
      ensures SlotOk(cfg, a.split, old(rows), Line(cfg, old(Snap()), a.revert), Need(a.val), slot)
      ensures Snap() == if KeepsRow(old(Snap()), a, flags) then Overwrite(old(Snap()), a.key, a.val, flags)
                        else MoveAt(Touch(old(Snap()), a.key, Line(cfg, old(Snap()), a.revert), a.revert),
                                    Place(cfg, old(Snap()), slot, a.key, a.val, flags),
                                    a.key, Line(cfg, old(Snap()), a.revert))
    {
      slot := Append(luck.file);
      var r := rows[keyTable[a.key]];
      var rowRevert := a.revert && !flags.noRevert;
      var fits := if a.val.Inline? then r.rowSize == 0 else r.rowSize > 0 && r.rowSize >= |a.val.data|;
      if fits && (!rowRevert || a.key in chgKeys) {
        OverwriteRow(a.key, a.val, flags);
      } else {
        slot := MoveVersion(a, flags, maxWindow, luck);
      }
    }

    /** f_append: an existing key is overwritten without history, unless it is locked, UNLOCK or not;
        a new one gets a row behind all others. */
    method FAppend(a: WriteArgs, luck: Luck) returns (ok: bool, ghost op: Op)
      requires Valid() && PayloadOk(a.val)
      requires a.key in keyTable ==> LuckOk(luck, Line(cfg, Snap(), false), Need(a.val), 0)
      modifies this
      ensures op.OpAppend? && op.args == a && LegalOp(cfg, old(Snap()), op)
      ensures Snap() == Step(cfg, old(Snap()), op)
      ensures Valid() && Abs(Snap()) == Put(old(Abs(Snap())), WithoutUnlock(a))
      ensures ok <==> a.key !in old(keyTable) || Kind(old(Snap()), AsOverwrite(a)) != Refused
    {
      hide Tiled, Extents, SizesOf, RowsOk, Write, AppendNew, Abs, Put, SlotOk;
      ghost var s0 := Snap();
      ghost var slot;
      if a.key in keyTable {
        if rows[keyTable[a.key]].flags.readOnly && !a.unlock {
          ReadOnlyStays(cfg, s0, a, luck.file);
          return false, OpAppend(a, Append(luck.file));
        }
        ok, slot := FWrite(AsOverwrite(a), 0, luck);
        op := OpAppend(a, slot);
      } else {
        op := OpAppend(a, Append(luck.file));
        AppendRow(a.key, a.val, if a.flags.Some? then a.flags.value else NO_FLAGS, luck.file);
        ok := true;
      }
      AppendStep(cfg, s0, op);
      FilledStep(cfg, s0, op);
    }

    method AppendRow(key: Key, val: Payload, flags: Flags, file: nat)
      requires Valid() && PayloadOk(val) && key !in keyTable
      modifies this
      ensures Snap() == AppendNew(cfg, old(Snap()), key, val, flags, file)
    {
      hide Tiled, Extents, SizesOf, RowsOk;
      ghost var s0 := Snap();
      var line := Min(Max(safeLine, nRecords), |rows|);
      var d, r := PlaceValue(key, val, flags, None, file, Append(file), s0);
      MakeRoom(d, line, nRecords, r);
      safeLine := safeLine + 1;
      keyTable := keyTable[key := nRecords];
      nRecords := nRecords + 1;
      syncId := Next(syncId);
    }

    /** The last record fills the hole, and the version parked at the end of SAFE may make room for the deleted one. */
    method CloseGap(key: Key, revert: bool)
      requires key in keyTable && keyTable[key] < nRecords <= |rows|
      modifies this`rows, this`nRecords, this`keyTable, this`syncId
      ensures Snap() == DeleteAt(old(Snap()), key, ParkAt(old(Snap()), key, revert))
    {
      var row := keyTable[key];
      var gone := rows[row].(ver := syncId);
      var safeT := Min(Max(safeLine, nRecords), |rows|) - 1;
      var recordT := nRecords - 1;
      if row < recordT {
        keyTable := keyTable[rows[recordT].key := row];
        rows := rows[row := rows[recordT]];
      }
      if safeT != recordT {
        if revert && key in chgKeys {
          rows := rows[recordT := rows[safeT]];
        } else {
          safeT := recordT;
        }
      }
      rows := rows[safeT := gone];
      nRecords := recordT;
      syncId := Next(syncId);
      keyTable := keyTable - {key};
    }

    /** f_delete: false when the key is absent or the record is locked. */
    method FDelete(key: Key, revert: bool, unlock: bool) returns (done: bool)
      requires Valid()
      modifies this
      ensures Snap() == Delete(old(Snap()), key, revert, unlock)
      ensures Valid() && Abs(Snap()) == Drop(old(Abs(Snap())), key, unlock)
      ensures Versions(rows) == Versions(old(rows))
      ensures done <==> Snap() != old(Snap())
    {
      DeleteRefines(Snap(), key, revert, unlock);
      FilledStep(cfg, Snap(), OpDelete(key, revert, unlock));
      if key !in keyTable {
        return false;
      }
      if DeleteLocked(rows[keyTable[key]].flags) && !unlock {
        return false;
      }
      CloseGap(key, revert);
      done := true;
    }

    /** The row an undo acts on: the one named, or the first one of the key behind the records. */
    method FindParked(key: Key, row: Option<nat>) returns (at: Option<nat>)
      requires nRecords <= |rows|
      ensures at == Chosen(Snap(), key, row)
    {
      if row.Some? {
        return if nRecords <= row.value < |rows| && rows[row.value].key == key then row else None;
      }
      var i := nRecords;
      while i < |rows|
        invariant nRecords <= i <= |rows|
        invariant FirstParked(rows, nRecords, key) == FirstParked(rows, i, key)
      {
        if rows[i].key == key {
          return Some(i);
        }
        i := i + 1;
      }
      at := None;
    }

    /** The parked row becomes record `n`; the rows between close up, and the session lines follow. */
    method Reopen(key: Key, at: nat, revert: bool)
      requires nRecords <= at < |rows|
      modifies this
      ensures Snap() == UndeleteAt(old(Snap()), key, at, revert)
    {
      var back := rows[at].(ver := syncId);
      var safeH := nRecords;
      var deadH := if revert then Min(Max(safeLine, nRecords), |rows|) else nRecords;
      if at >= deadH {
        if revert {
          chgKeys := chgKeys + {key};
          safeLine := deadH + 1;
        } else {
          safeLine := nRecords;
        }
        if at > deadH {
          rows := rows[at := rows[deadH]];
        }
        if deadH > safeH {
          rows := rows[deadH := rows[safeH]];
        }
      } else {
        chgKeys := chgKeys - {key};
        if at > safeH {
          rows := rows[at := rows[safeH]];
        }
      }
      rows := rows[safeH := back];
      nRecords := nRecords + 1;
      syncId := Next(syncId);
      keyTable := keyTable[key := safeH];
    }

    /** f_undelete: the row the record came back to, or none. */
    method FUndelete(key: Key, row: Option<nat>, revert: bool) returns (back: Option<nat>)
      requires Valid()
      modifies this
      ensures Snap() == Undelete(old(Snap()), key, row, revert)
      ensures Valid() && Versions(rows) == Versions(old(rows))
      ensures back == if Snap() == old(Snap()) then None else Some(old(nRecords))
    {
      UndeleteRefines(Snap(), key, row, revert);
      FilledStep(cfg, Snap(), OpUndelete(key, row, revert));
      if key == "" || key in keyTable {
        return None;
      }
      var found := FindParked(key, row);
      ChosenIsParked(Snap(), key, row);
      if found.None? {
        return None;
      }
      back := Some(nRecords);
      Reopen(key, found.value, revert);
    }

    /** f_unwrite: the row of the record whose version was swapped, or none. */
    method FUnwrite(key: Key, row: Option<nat>) returns (back: Option<nat>)
      requires Valid()
      modifies this
      ensures Snap() == Unwrite(old(Snap()), key, row)
      ensures Valid() && Versions(rows) == Versions(old(rows))
      ensures keyTable == old(keyTable) && nRecords == old(nRecords)
    {
      hide Tiled, Extents, SizesOf, RowsOk, Versions, Abs, FirstParked;
      UnwriteRefines(Snap(), key, row);
      FilledStep(cfg, Snap(), OpUnwrite(key, row));
      if key == "" || key !in keyTable {
        return None;
      }
      var found := FindParked(key, row);
      ChosenIsParked(Snap(), key, row);
      var oldRow := keyTable[key];
      if found.None? || WriteLocked(rows[oldRow].flags) {
        return None;
      }
      var at := found.value;
      var parked := rows[at];
      var live := rows[oldRow];
      rows := rows[at := live.(ver := syncId)];
      rows := rows[oldRow := parked.(ver := syncId, flags := live.flags)];
      syncId := Next(syncId);
      chgKeys := chgKeys - {key};
      back := Some(oldRow);
    }

    /** f_rename: false when the name stays the same, is taken, or the key is absent. */
    method FRename(key: Key, newKey: Key) returns (done: bool)
      requires Valid()
      modifies this
      ensures Snap() == Rename(old(Snap()), key, newKey)
      ensures Valid() && Abs(Snap()) == Relabel(old(Abs(Snap())), key, newKey)
    {
      hide Tiled, Extents, SizesOf, RowsOk, Abs, Relabel;
      RenameRefines(Snap(), key, newKey);
      FilledStep(cfg, Snap(), OpRename(key, newKey));
      if key == newKey || newKey in keyTable || key !in keyTable {
        return false;
      }
      var row := keyTable[key];
      rows := rows[row := rows[row].(key := newKey, ver := syncId)];
      syncId := Next(syncId);
      keyTable := keyTable - {key};
      keyTable := keyTable[newKey := row];
      done := true;
    }

    /** unremove, and the first half of revert: brings every key of `keys` back that has a parked row
        of the wanted version, although each restored record permutes the rows being scanned. */
    method RestoreDeleted(keys: set<Key>, version: Option<nat>, revert: bool) returns (restored: set<Key>)
      requires Valid() && keys !! keyTable.Keys
      modifies this
      ensures Valid() && RestoredAll(old(Snap()), Snap(), keys, restored, version)
      ensures Snap() == RestoreAll(old(Snap()), keys, version, revert)
    {
      hide Tiled, Extents, SizesOf, RowsOk, TableOk, Versions, RestoredAll, UndeleteAt, Filled;
      ghost var s0 := Snap();
      var add := keys;
      var rowId := nRecords;
      restored := {};
      RestoreStarts(s0, keys, version);
      while add != {} && rowId < |rows|
        invariant nRecords <= rowId <= |rows| && RestoreInv(s0, Snap(), keys, add, restored, version)
        invariant ConfigOk(cfg) && windowSize > 0 && ScanClear(rows, nRecords, rowId, add, version) && Filled(Snap())
        invariant RestoreAll(s0, keys, version, revert) == RestoreAll(Snap(), add, version, revert)
        decreases add, |rows| - rowId
      {
        var key := rows[rowId].key;
        ghost var wanted := add;
        if key in add && Matches(rows[rowId], key, version) {
          WantedAt(rows, nRecords, rowId, add, version);
          var back := TryRestore(rowId, revert, s0, keys, add, restored, version);
          add := add - {key};
          if back {
            restored := restored + {key};
            rowId := nRecords;
            continue;
          }
        }
        ScanSkips(rows, nRecords, rowId, wanted, add, version);
        rowId := rowId + 1;
      }
      NoneWanted(rows, nRecords, add, version);
      RestoreEnds(s0, Snap(), keys, add, restored, version, rowId);
    }

    method TryRestore(at: nat, revert: bool, ghost s0: State, ghost keys: set<Key>, ghost add: set<Key>,
                      ghost restored: set<Key>, ghost version: Option<nat>) returns (back: bool)
      requires ConfigOk(cfg) && windowSize > 0 && Filled(Snap()) && RestoreInv(s0, Snap(), keys, add, restored, version)
      requires nRecords <= at < |rows| && rows[at].key in add && Matches(rows[at], rows[at].key, version)
      modifies this
      ensures back <==> old(rows)[at].key != ""
      ensures Snap() == if back then UndeleteAt(old(Snap()), old(rows)[at].key, at, revert) else old(Snap())
      ensures nRecords <= |rows| && Filled(Snap())
      ensures RestoreInv(s0, Snap(), keys, add - {old(rows)[at].key},
                         if back then restored + {old(rows)[at].key} else restored, version)
    {
      RestoreStep(s0, Snap(), keys, add, restored, version, at, revert);
      var row := FUndelete(rows[at].key, Some(at), revert);
      back := row.Some?;
    }

    /** unmodify, and the second half of revert: swaps every key of `keys` with its first parked row
        of the wanted version, in one pass over the history. */
    method SwapBack(keys: set<Key>, version: Option<nat>)
      requires Valid() && keys <= keyTable.Keys
      modifies this
      ensures Valid() && SwappedAll(old(Snap()), Snap(), keys, version)
    {
      hide Tiled, Extents, SizesOf, RowsOk, TableOk, Versions, Values, Unmatched;
      ghost var s0 := Snap();
      var chg := keys;
      var rowId := nRecords;
      SwapStarts(s0, keys, version);
      while chg != {} && rowId < |rows|
        invariant nRecords <= rowId <= |rows| && ConfigOk(cfg) && windowSize > 0 && Filled(Snap())
        invariant SwapInv(s0, Snap(), keys, chg, rowId, version)
        decreases |rows| - rowId
      {
        chg := TrySwap(rowId, s0, keys, chg, version);
        rowId := rowId + 1;
      }
      SwapEnds(s0, Snap(), keys, chg, rowId, version);
    }

    /** Looks at one row: when its key is on the list and the version is wanted, the key is done with. */
    method TrySwap(at: nat, ghost s0: State, ghost keys: set<Key>, chg: set<Key>, version: Option<nat>)
      returns (rest: set<Key>)
      requires ConfigOk(cfg) && windowSize > 0 && Filled(Snap())
      requires SwapInv(s0, Snap(), keys, chg, at, version) && at < |rows|
      modifies this
      ensures nRecords <= |rows| == |old(rows)| && nRecords == old(nRecords) && Filled(Snap())
      ensures SwapInv(s0, Snap(), keys, rest, at + 1, version)
    {
      var key := rows[at].key;
      if key in chg && Matches(rows[at], key, version) {
        SwapStep(s0, Snap(), keys, chg, at, version);
        var _ := FUnwrite(key, Some(at));
        rest := chg - {key};
      } else {
        SwapSkips(s0, Snap(), keys, chg, at, version);
        rest := chg;
      }
    }

    /** revert: deleted keys are brought back first, then the keys that were live are swapped back. */
    method Revert(keys: set<Key>, version: Option<nat>, revert: bool) returns (restored: set<Key>)
      requires Valid()
      modifies this
      ensures Valid() && Reverted(old(Snap()), Snap(), keys, version)
      ensures SwappedAll(RestoreAll(old(Snap()), keys - old(keyTable).Keys, version, revert), Snap(),
                         keys * old(keyTable).Keys, version)
    {
      ghost var s0 := Snap();
      var chg := keys * keyTable.Keys;
      var add := keys - keyTable.Keys;
      restored := RestoreDeleted(add, version, revert);
      ghost var s1 := Snap();
      SwapBack(chg, version);
      RevertIs(s0, s1, Snap(), keys, restored, version);
    }

    /** The live keys whose time has run out, the highest row first. */
    method ListExpired(expired: set<Key>) returns (list: seq<Key>)
      requires nRecords <= |rows| && TableOk(rows, nRecords, keyTable)
      ensures list == ExpiredKeys(rows, nRecords, expired)
      ensures forall k :: k in list <==> k in expired && k in keyTable
      ensures forall i, j :: 0 <= i < j < |list| ==> keyTable[list[i]] > keyTable[list[j]]
    {
      hide TableOk;
      list := [];
      for row := 0 to nRecords
        invariant list == ExpiredKeys(rows, row, expired)
      {
        if rows[row].key in expired {
          list := [rows[row].key] + list;
        }
      }
      ExpiredAre(rows, nRecords, keyTable, expired);
    }

    /** recycle, first part: expired records are deleted, the highest row first. */
    method DropExpired(expired: set<Key>, revert: bool)
      requires Valid()
      modifies this
      ensures Valid() && |rows| == |old(rows)|
      ensures Abs(Snap()) == old(Abs(Snap())) - expired
      ensures Snap() == DeleteAll(old(Snap()), ExpiredKeys(old(rows), old(nRecords), expired), revert)
    {
      hide Tiled, Extents, SizesOf, RowsOk, TableOk, Versions;
      ghost var s0 := Snap();
      var list := ListExpired(expired);
      assert list[0..] == list;
      for i := 0 to |list|
        invariant ConfigOk(cfg) && windowSize > 0
        invariant Inv(Snap()) && DeleteAll(s0, list, revert) == DeleteAll(Snap(), list[i..], revert)
        invariant Dropped(s0, Snap(), list, i)
      {
        DropStep(cfg, s0, Snap(), list, i, revert);
        assert list[i..][1..] == list[i + 1..];
        var _ := FDelete(list[i], revert, true);
        assert Dropped(s0, Snap(), list, i + 1);
      }
      DropEnds(s0, Snap(), list, expired);
    }

    /** Whether releasing would pay: some dead row has no bytes, or its bytes end where the file ends. */
    method Sortable() returns (sortable: bool)
      requires nRecords <= |rows| && Tiled(Extents(rows), SizesOf(files))
      ensures sortable <==> !NoLoss(rows, nRecords, files)
    {
      sortable := false;
      for i := nRecords to |rows|
        invariant sortable <==> !NoLoss(rows[..i], nRecords, files)
      {
        var r := rows[i];
        if r.rowSize == 0 {
          sortable := true;
        } else {
          FileHolds(rows, i, files);
          if r.offset + r.rowSize >= |files[r.fileId]| {
            sortable := true;
          }
        }
      }
      assert rows[..|rows|] == rows;
    }

    /** recycle: expired records go, dead space is released and, on request, merged into the records. */
    method Recycle(expired: set<Key>, merge: bool, revert: bool)
      requires Valid()
      modifies this
      ensures Valid() && |rows| <= |old(rows)|
      ensures Abs(Snap()) == old(Abs(Snap())) - expired
      ensures merge ==> Compact(rows, nRecords, files)
      ensures Recycled(DeleteAll(old(Snap()), ExpiredKeys(old(rows), old(nRecords), expired), revert), Snap(), merge)
    {
      hide Tiled, Extents, SizesOf, RowsOk, TableOk, NoLoss;
      DropExpired(expired, revert);
      ghost var s1 := Snap();
      if nRecords == 0 {
        rows, files, keyTable, syncId := [], map[], map[], 0;
        EmptyIsKept(s1, Snap());
        return;
      }
      if nRecords < |rows| {
        var sortable := Sortable();
        if !merge && !sortable {
          return;
        }
        rows, files := Reclaim(rows, nRecords, files, sortable, merge, syncId, s1);
      }
      syncId := Next(syncId);
      KeptStamp(s1, Snap());
    }

    /** check_error, without repairs, on any rows: it finds something exactly when a live key is there twice or
        one of several extents does not start where it should; so in every reachable state it finds nothing.
        A gap is something found here: the source prints it, and repairs it, but its result does not list it. */
    method CheckError() returns (found: bool)
      requires nRecords <= |rows|
      ensures !found <==> KeysDiffer(rows, nRecords) && (|Sorted(rows)| <= 1 || Chained(Sorted(rows)))
      ensures Valid() ==> !found
    {
      ScanIff(rows, SizesOf(files));
      found := KeyTwice(rows, nRecords);
      if !found {
        found := Scan(Sorted(rows));
      }
    }
  }

  lemma PlacedBeyond(cfg: Config, split: bool, s: State, slot: Slot, key: Key, val: Payload, flags: Flags, line: nat)
    requires ConfigOk(cfg) && s.n <= line <= |s.rows| && SlotOk(cfg, split, s.rows, line, Need(val), slot)
    ensures var p := Place(cfg, s, slot, key, val, flags); line <= p.d < |p.c|
  {
  }

  lemma SlotFits(cfg: Config, split: bool, rows: seq<Row>, line: nat, req: nat, slot: Slot)
    requires cfg.reservedRate >= 0.0 && SlotOk(cfg, split, rows, line, req, slot)
    ensures slot.Reuse? ==> slot.row < |rows| && slot.keep <= rows[slot.row].rowSize
    ensures slot.Reuse? && slot.ext.Some? ==> slot.ext.value < |rows|
  {
  }

  /** The early refusal of an append is the one f_write would give. */
  lemma ReadOnlyStays(cfg: Config, s: State, a: WriteArgs, file: nat)
    requires Inv(s) && ConfigOk(cfg) && PayloadOk(a.val) && a.key in s.table && s.rows[s.table[a.key]].flags.readOnly
    ensures LegalOp(cfg, s, OpAppend(a, Append(file))) && Step(cfg, s, OpAppend(a, Append(file))) == s
    ensures Abs(s) == Put(Abs(s), WithoutUnlock(a))
  {
    assert Abs(s)[a.key].flags == s.rows[s.table[a.key]].flags;
  }

  lemma FileHolds(rows: seq<Row>, i: nat, files: Files)
    requires i < |rows| && rows[i].rowSize > 0 && Tiled(Extents(rows), SizesOf(files))
    ensures rows[i].fileId in files
  {
    ExtentsHas(rows, i);
    assert Inside(ExtentOf(rows[i]), SizesOf(files));
  }

  lemma MultipleFits(k: nat, n: nat, d: nat)
    requires d > 0 && k <= n / d
    ensures RowsBefore(k, d) <= n
  {
    assert k * d <= (n / d) * d;
  }
}
