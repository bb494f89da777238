/** Every step keeps the index invariant and does to the abstract map exactly what it says. */
module Refine {
  import opened Bytes
  import opened Rows
  import opened Index
  import opened Tiling

  lemma Cancel<T>(m: multiset<T>, x: multiset<T>, c: multiset<T>, y: multiset<T>)
    requires x <= c && m + x == c + y
    ensures c == (c - x) + x && m == (c - x) + y
  {
    forall t | true ensures m[t] == ((c - x) + y)[t] {
      assert (m + x)[t] == (c + y)[t];
    }
  }

  lemma ShiftExtents(c: seq<Row>, d: nat, line: nat, hole: nat, parked: Row, placed: Row)
    requires hole <= line <= d < |c| && Owned(parked) == Owned(c[hole])
    requires hole == line ==> parked == c[hole]
    ensures Extents(Shift(c, d, line, hole, parked, placed)) + Owned(c[d]) == Extents(c) + Owned(placed)
  {
    var a := c[d := c[line]];
    var b := a[line := parked];
    ExtentsSet(c, d, c[line]);
    ExtentsSet(a, line, parked);
    ExtentsSet(b, hole, placed);
    var z := Extents(b[hole := placed]);
    assert b[hole] == if hole == line then parked else c[hole];
    forall e | true ensures (z + Owned(c[d]))[e] == (Extents(c) + Owned(placed))[e] {
      assert (Extents(a) + Owned(c[d]))[e] == (Extents(c) + Owned(c[line]))[e];
      assert (Extents(b) + Owned(c[line]))[e] == (Extents(a) + Owned(parked))[e];
      assert (z + Owned(b[hole]))[e] == (Extents(b) + Owned(placed))[e];
    }
  }

  // ---- writing ----

  /** All that the steps need to know of a new version on its way in. */
  ghost predicate PlacingOk(s: State, p: Placing, key: Key, val: Payload, flags: Flags, line: nat) {
    && s.n <= line <= |s.rows| <= |p.c| && line <= p.d < |p.c|
    && (forall i :: 0 <= i < line ==> p.c[i] == s.rows[i])
    && RowsOk(p.c)
    && p.row.key == key && p.row.flags == flags && (p.row.rowSize > 0 ==> p.row.valSize <= p.row.rowSize)
    && Owned(p.c[p.d]) <= Extents(p.c)
    && Tiled(Extents(p.c) - Owned(p.c[p.d]) + Owned(p.row), SizesOf(p.files))
    && ValueOf(p.files, p.row) == val
    && (forall i :: 0 <= i < |p.c| && i != p.d ==> ValueOf(p.files, p.c[i]) == ValueOf(s.files, p.c[i]))
  }

  /** Where the slot lies, and what the new row says of itself. */
  lemma PlaceShape(cfg: Config, split: bool, s: State, slot: Slot, key: Key, val: Payload, flags: Flags, line: nat)
    requires ConfigOk(cfg) && s.n <= line <= |s.rows| && RowsOk(s.rows)
    requires SlotOk(cfg, split, s.rows, line, Need(val), slot)
    ensures var p := Place(cfg, s, slot, key, val, flags);
      && s.n <= line <= |s.rows| <= |p.c| && line <= p.d < |p.c| && Ready(p.c, slot, val, p.d)
      && (forall i :: 0 <= i < line ==> p.c[i] == s.rows[i])
      && RowsOk(p.c)
      && p.row.key == key && p.row.flags == flags && (p.row.rowSize > 0 ==> p.row.valSize <= p.row.rowSize)
  {
    hide NewFiles;
    CarveFrame(cfg, split, s.rows, line, Need(val), slot);
  }

  lemma PlaceOk(cfg: Config, split: bool, s: State, slot: Slot, key: Key, val: Payload, flags: Flags, line: nat)
    requires Inv(s) && ConfigOk(cfg) && PayloadOk(val) && s.n <= line <= |s.rows|
    requires SlotOk(cfg, split, s.rows, line, Need(val), slot)
    ensures PlacingOk(s, Place(cfg, s, slot, key, val, flags), key, val, flags, line)
  {
    hide TableOk, RowsOk, Tiled, Extents, ValueOf, SizesOf, NewFiles, NewRow, Carve, Ready;
    PlaceShape(cfg, split, s, slot, key, val, flags, line);
    var p := Place(cfg, s, slot, key, val, flags);
    CarveTiled(cfg, split, s.rows, line, Need(val), slot, SizesOf(s.files));
    PlaceExtents(cfg, s.files, p, slot, key, val, s.sync, flags);
    PlaceReads(cfg, s.files, p.c, slot, key, val, s.sync, flags, p.d);
    forall i | 0 <= i < |p.c| && i != p.d ensures ValueOf(p.files, p.c[i]) == ValueOf(s.files, p.c[i]) {
      PlaceFrame(cfg, s.files, p.c, slot, val, p.d, i);
    }
  }

  /** The new row's extent takes the place of the slot's. */
  lemma PlaceExtents(cfg: Config, files: Files, p: Placing, slot: Slot, key: Key, val: Payload, sync: nat, flags: Flags)
    requires ConfigOk(cfg) && PayloadOk(val) && Ready(p.c, slot, val, p.d) && Tiled(Extents(p.c), SizesOf(files))
    requires p.row == NewRow(cfg, files, p.c, slot, key, val, sync, flags) && p.files == NewFiles(cfg, files, p.c, slot, val)
    ensures Owned(p.c[p.d]) <= Extents(p.c)
    ensures Tiled(Extents(p.c) - Owned(p.c[p.d]) + Owned(p.row), SizesOf(p.files))
  {
    hide Tiled, Extents, SizesOf, NewFiles, NewRow;
    OwnedBy(p.c, p.d);
    var rest := Extents(p.c) - Owned(p.c[p.d]);
    Cancel(Extents(p.c), Owned(p.c[p.d]), Extents(p.c), Owned(p.c[p.d]));
    PlaceTiled(cfg, files, p.c, rest, slot, key, val, sync, flags, p.d);
  }

  lemma OwnedBy(rows: seq<Row>, i: nat)
    requires i < |rows|
    ensures Owned(rows[i]) <= Extents(rows)
  {
    if rows[i].rowSize > 0 {
      ExtentsHas(rows, i);
    }
  }

  lemma ShiftTiled(s: State, p: Placing, key: Key, val: Payload, flags: Flags, line: nat, hole: nat, parked: Row)
    requires PlacingOk(s, p, key, val, flags, line)
    requires hole <= line && Owned(parked) == Owned(p.c[hole]) && (hole == line ==> parked == p.c[hole])
    ensures Tiled(Extents(Shift(p.c, p.d, line, hole, parked, p.row)), SizesOf(p.files))
  {
    ShiftExtents(p.c, p.d, line, hole, parked, p.row);
    Cancel(Extents(Shift(p.c, p.d, line, hole, parked, p.row)), Owned(p.c[p.d]), Extents(p.c), Owned(p.row));
  }

  lemma ShiftRows(c: seq<Row>, d: nat, line: nat, hole: nat, parked: Row, placed: Row)
    requires hole <= line <= d < |c| && RowsOk(c)
    requires parked.rowSize > 0 ==> parked.valSize <= parked.rowSize
    requires placed.rowSize > 0 ==> placed.valSize <= placed.rowSize
    ensures var z := Shift(c, d, line, hole, parked, placed);
      && RowsOk(z) && |z| == |c| && z[hole] == placed
      && (forall i :: 0 <= i < line && i != hole ==> z[i] == c[i])
  {
  }

  lemma TableKept(s: State, rows: seq<Row>)
    requires s.n <= |s.rows| && s.n <= |rows| && TableOk(s.rows, s.n, s.table)
    requires forall i :: 0 <= i < s.n ==> rows[i].key == s.rows[i].key
    ensures TableOk(rows, s.n, s.table)
  {
  }

  lemma MoveInv(s: State, p: Placing, key: Key, val: Payload, flags: Flags, line: nat)
    requires Inv(s) && PlacingOk(s, p, key, val, flags, line) && key in s.table
    ensures Inv(MoveAt(s, p, key, line))
  {
    hide Tiled, SizesOf, ValueOf;
    var row := s.table[key];
    var prev := p.c[row].(ver := s.sync);
    ShiftTiled(s, p, key, val, flags, line, row, prev);
    ShiftRows(p.c, p.d, line, row, prev, p.row);
    TableKept(s, MoveAt(s, p, key, line).rows);
  }

  /** One key changes, the others keep their rows and their bytes. */
  lemma AbsChanges(s: State, t: State, key: Key, e: Entry)
    requires Inv(s) && Inv(t) && t.table.Keys == s.table.Keys + {key}
    requires EntryOf(t.files, t.rows[t.table[key]]) == e
    requires forall k :: k in s.table && k != key ==>
               EntryOf(t.files, t.rows[t.table[k]]) == EntryOf(s.files, s.rows[s.table[k]])
    ensures Abs(t) == Abs(s)[key := e]
  {
  }

  /** The live rows a placing leaves alone read as before. */
  lemma LiveKept(s: State, p: Placing, key: Key, val: Payload, flags: Flags, line: nat, k: Key)
    requires Inv(s) && PlacingOk(s, p, key, val, flags, line) && k in s.table
    ensures p.c[s.table[k]] == s.rows[s.table[k]]
    ensures EntryOf(p.files, s.rows[s.table[k]]) == EntryOf(s.files, s.rows[s.table[k]])
  {
  }

  /** A moved version is what the key reads from now on; every other live key reads as before. */
  lemma MoveRefines(s: State, p: Placing, key: Key, val: Payload, flags: Flags, line: nat)
    requires Inv(s) && PlacingOk(s, p, key, val, flags, line) && key in s.table
    ensures Inv(MoveAt(s, p, key, line))
    ensures Abs(MoveAt(s, p, key, line)) == Abs(s)[key := Entry(val, flags)]
  {
    MoveInv(s, p, key, val, flags, line);
    var t := MoveAt(s, p, key, line);
    forall k | k in s.table && k != key
      ensures EntryOf(t.files, t.rows[t.table[k]]) == EntryOf(s.files, s.rows[s.table[k]])
    {
      LiveKept(s, p, key, val, flags, line, k);
      assert t.rows[t.table[k]] == p.c[s.table[k]];
    }
    AbsChanges(s, t, key, Entry(val, flags));
  }

  lemma InsertInv(s: State, p: Placing, key: Key, val: Payload, flags: Flags, line: nat)
    requires Inv(s) && PlacingOk(s, p, key, val, flags, line) && key !in s.table
    ensures Inv(InsertAt(s, p, key, line))
  {
    ShiftTiled(s, p, key, val, flags, line, s.n, p.c[s.n]);
    ShiftRows(p.c, p.d, line, s.n, p.c[s.n], p.row);
    TableGrows(s, InsertAt(s, p, key, line), key);
  }

  lemma TableGrows(s: State, t: State, key: Key)
    requires s.n < |t.rows| && s.n <= |s.rows| && TableOk(s.rows, s.n, s.table) && key !in s.table
    requires forall i :: 0 <= i < s.n ==> t.rows[i] == s.rows[i]
    requires t.rows[s.n].key == key
    ensures TableOk(t.rows, s.n + 1, s.table[key := s.n])
  {
  }

  lemma InsertEntries(s: State, p: Placing, key: Key, val: Payload, flags: Flags, line: nat)
    requires Inv(s) && PlacingOk(s, p, key, val, flags, line) && key !in s.table
    ensures var t := InsertAt(s, p, key, line);
      && s.n < |t.rows| && EntryOf(t.files, t.rows[s.n]) == Entry(val, flags)
      && (forall k :: k in s.table ==>
            (s.table[k] < |t.rows| && EntryOf(t.files, t.rows[s.table[k]]) == EntryOf(s.files, s.rows[s.table[k]])))
  {
    var t := InsertAt(s, p, key, line);
    forall k | k in s.table
      ensures EntryOf(t.files, t.rows[s.table[k]]) == EntryOf(s.files, s.rows[s.table[k]])
    {
      LiveKept(s, p, key, val, flags, line, k);
      assert t.rows[s.table[k]] == p.c[s.table[k]];
    }
  }

  /** A new key joins the map; every other live key reads as before. */
  lemma InsertRefines(s: State, p: Placing, key: Key, val: Payload, flags: Flags, line: nat, steps: nat)
    requires Inv(s) && PlacingOk(s, p, key, val, flags, line) && key !in s.table
    ensures Inv(Advance(InsertAt(s, p, key, line), steps))
    ensures Abs(Advance(InsertAt(s, p, key, line), steps)) == Abs(s)[key := Entry(val, flags)]
  {
    hide TableOk, RowsOk, Tiled, Extents, SizesOf, ValueOf;
    InsertInv(s, p, key, val, flags, line);
    InsertEntries(s, p, key, val, flags, line);
    AbsChanges(s, Advance(InsertAt(s, p, key, line), steps), key, Entry(val, flags));
  }

  /** A row replaced by one owning the same extent keeps the tiling. */
  lemma SetSameExtent(rows: seq<Row>, i: nat, r: Row, sizes: Sizes)
    requires i < |rows| && Owned(r) == Owned(rows[i]) && Tiled(Extents(rows), sizes)
    ensures Extents(rows[i := r]) == Extents(rows)
    ensures Tiled(Extents(rows[i := r]), sizes)
  {
    ExtentsSet(rows, i, r);
    forall e | true ensures Extents(rows[i := r])[e] == Extents(rows)[e] {
      assert (Extents(rows[i := r]) + Owned(rows[i]))[e] == (Extents(rows) + Owned(r))[e];
    }
  }

  /** Bytes stored inside a row's own extent leave every other row's value alone. */
  lemma StoreFrame(s: State, row: nat, data: seq<byte>, i: nat)
    requires Inv(s) && row < |s.rows| && i < |s.rows| && i != row && 0 < |data| <= s.rows[row].rowSize
    ensures var r := s.rows[row];
      var files := s.files[r.fileId := Splice(FileOf(s.files, r.fileId), r.offset, data)];
      SizesOf(files) == SizesOf(s.files) && EntryOf(files, s.rows[i]) == EntryOf(s.files, s.rows[i])
  {
    ExtentsHas(s.rows, row);
    StoreInside(s.files, ExtentOf(s.rows[row]), data);
    if s.rows[i].rowSize > 0 {
      ExtentsHas(s.rows, i);
      RowsApart(s.rows, SizesOf(s.files), i, row);
    }
  }

  ghost predicate Fits(r: Row, val: Payload) {
    if val.Inline? then r.rowSize == 0 else 0 < |val.data| <= r.rowSize
  }

  lemma OwnedInside(s: State, row: nat)
    requires Tiled(Extents(s.rows), SizesOf(s.files)) && row < |s.rows| && s.rows[row].rowSize > 0
    ensures Inside(ExtentOf(s.rows[row]), SizesOf(s.files))
  {
    ExtentsHas(s.rows, row);
  }

  lemma OverwriteInv(s: State, key: Key, val: Payload, flags: Flags)
    requires Inv(s) && key in s.table && Fits(s.rows[s.table[key]], val)
    ensures Inv(Overwrite(s, key, val, flags))
    ensures EntryOf(Overwrite(s, key, val, flags).files, Overwrite(s, key, val, flags).rows[s.table[key]]) == Entry(val, flags)
  {
    hide Tiled, Extents;
    var row := s.table[key];
    var t := Overwrite(s, key, val, flags);
    SetSameExtent(s.rows, row, t.rows[row], SizesOf(s.files));
    if val.Stored? {
      OwnedInside(s, row);
      StoreInside(s.files, ExtentOf(s.rows[row]), val.data);
    }
  }

  /** An overwrite in place changes that key alone, whatever extents lie around it. */
  lemma OverwriteRefines(s: State, key: Key, val: Payload, flags: Flags)
    requires Inv(s) && key in s.table && Fits(s.rows[s.table[key]], val)
    ensures Inv(Overwrite(s, key, val, flags))
    ensures Abs(Overwrite(s, key, val, flags)) == Abs(s)[key := Entry(val, flags)]
  {
    OverwriteInv(s, key, val, flags);
    var t := Overwrite(s, key, val, flags);
    forall k | k in s.table && k != key
      ensures EntryOf(t.files, t.rows[t.table[k]]) == EntryOf(s.files, s.rows[s.table[k]])
    {
      if val.Stored? {
        StoreFrame(s, s.table[key], val.data, s.table[k]);
      }
    }
    AbsChanges(s, t, key, Entry(val, flags));
  }

  lemma SetFlagsRefines(s: State, key: Key, flags: Flags)
    requires Inv(s) && key in s.table
    ensures Inv(SetFlags(s, key, flags))
    ensures Abs(SetFlags(s, key, flags)) == Abs(s)[key := Entry(ValueOf(s.files, s.rows[s.table[key]]), flags)]
  {
    var row := s.table[key];
    var t := SetFlags(s, key, flags);
    SetSameExtent(s.rows, row, t.rows[row], SizesOf(s.files));
    AbsChanges(s, t, key, Entry(ValueOf(s.files, s.rows[row]), flags));
  }

  // ---- the plain map the database promises ----

  function Put(m: map<Key, Entry>, a: WriteArgs): map<Key, Entry> {
    if a.key !in m then
      m[a.key := Entry(a.val, if a.flags.Some? then a.flags.value else NO_FLAGS)]
    else
      var f := m[a.key].flags;
      if (f.readOnly || (f.appendOnly && !a.grows)) && !a.unlock then m
      else m[a.key := Entry(a.val, if a.flags.Some? then a.flags.value else f)]
  }

  function Drop(m: map<Key, Entry>, key: Key, unlock: bool): map<Key, Entry> {
    if key !in m then m
    else
      var f := m[key].flags;
      if (f.readOnly || f.appendOnly || f.noDelete) && !unlock then m else m - {key}
  }

  function Relabel(m: map<Key, Entry>, key: Key, newKey: Key): map<Key, Entry> {
    if key == newKey || newKey in m || key !in m then m else (m - {key})[newKey := m[key]]
  }

  lemma TouchKeeps(s: State, key: Key, line: nat, revert: bool)
    requires Inv(s)
    ensures Inv(Touch(s, key, line, revert)) && Abs(Touch(s, key, line, revert)) == Abs(s)
  {
  }

  /** When the stored value is the one being written, skipping the write changes nothing. */
  lemma SameReads(s: State, row: nat, val: Payload)
    requires Inv(s) && row < |s.rows| && PayloadOk(val) && Same(s.files, s.rows[row], val)
    ensures ValueOf(s.files, s.rows[row]) == val
  {
  }

  lemma PlaceOkTouched(cfg: Config, s: State, a: WriteArgs, slot: Slot)
    requires Inv(s) && WriteOk(cfg, s, a, slot)
    ensures var line := Line(cfg, s, a.revert); var flags := NewFlags(s, a);
      PlacingOk(Touch(s, a.key, line, a.revert), Place(cfg, s, slot, a.key, a.val, flags), a.key, a.val, flags, line)
  {
    PlaceOk(cfg, a.split, s, slot, a.key, a.val, NewFlags(s, a), Line(cfg, s, a.revert));
  }

  lemma PutAs(s: State, a: WriteArgs)
    requires Inv(s)
    ensures Put(Abs(s), a) == if Kind(s, a) == Refused then Abs(s) else Abs(s)[a.key := Entry(a.val, NewFlags(s, a))]
  {
    if a.key in s.table {
      assert Abs(s)[a.key].flags == s.rows[s.table[a.key]].flags;
    }
  }

  lemma SameRefines(s: State, a: WriteArgs)
    requires Inv(s) && PayloadOk(a.val) && (Kind(s, a) == Unchanged || Kind(s, a) == FlagsOnly)
    ensures a.key in s.table && Entry(ValueOf(s.files, s.rows[s.table[a.key]]), NewFlags(s, a)) == Entry(a.val, NewFlags(s, a))
    ensures Kind(s, a) == Unchanged ==> Abs(s)[a.key := Entry(a.val, NewFlags(s, a))] == Abs(s)
  {
    SameReads(s, s.table[a.key], a.val);
  }

  lemma InsertedRefines(cfg: Config, s: State, a: WriteArgs, slot: Slot)
    requires Inv(s) && WriteOk(cfg, s, a, slot) && a.key !in s.table
    ensures Inv(InsertNew(cfg, s, a, slot))
    ensures Abs(InsertNew(cfg, s, a, slot)) == Abs(s)[a.key := Entry(a.val, NewFlags(s, a))]
  {
    var line := Line(cfg, s, a.revert);
    var flags := NewFlags(s, a);
    var s1 := Touch(s, a.key, line, a.revert);
    var p := Place(cfg, s, slot, a.key, a.val, flags);
    TouchKeeps(s, a.key, line, a.revert);
    PlaceOkTouched(cfg, s, a, slot);
    InsertRefines(s1, p, a.key, a.val, flags, line, if a.revert then 0 else 1);
  }

  /** f_write: whichever branch it takes and whichever row it reuses, the map changes as the plain map does. */
  lemma WriteRefines(cfg: Config, s: State, a: WriteArgs, slot: Slot)
    requires Inv(s) && WriteOk(cfg, s, a, slot)
    ensures Inv(Write(cfg, s, a, slot))
    ensures Abs(Write(cfg, s, a, slot)) == Put(Abs(s), a)
  {
    hide RowsOk, Tiled, Extents, SizesOf, ValueOf, Place, PlacingOk;
    PutAs(s, a);
    match Kind(s, a)
    case Refused =>
    case Unchanged => SameRefines(s, a);
    case FlagsOnly =>
      SameRefines(s, a);
      SetFlagsRefines(s, a.key, NewFlags(s, a));
    case InPlace => OverwriteRefines(s, a.key, a.val, NewFlags(s, a));
    case Moved =>
      var line := Line(cfg, s, a.revert);
      TouchKeeps(s, a.key, line, a.revert);
      PlaceOkTouched(cfg, s, a, slot);
      MoveRefines(Touch(s, a.key, line, a.revert), Place(cfg, s, slot, a.key, a.val, NewFlags(s, a)),
                  a.key, a.val, NewFlags(s, a), line);
    case Inserted => InsertedRefines(cfg, s, a, slot);
  }

  /** f_append of a new key. */
  lemma AppendRefines(cfg: Config, s: State, key: Key, val: Payload, flags: Flags, file: nat)
    requires Inv(s) && ConfigOk(cfg) && PayloadOk(val) && key !in s.table
    ensures Inv(AppendNew(cfg, s, key, val, flags, file))
    ensures Abs(AppendNew(cfg, s, key, val, flags, file)) == Abs(s)[key := Entry(val, flags)]
  {
    var p := Place(cfg, s, Append(file), key, val, flags);
    PlaceOk(cfg, false, s, Append(file), key, val, flags, Clamp(s));
    InsertRefines(s, p, key, val, flags, Clamp(s), 1);
  }

  // ---- deleting, restoring, renaming ----

  /** What a step that only permutes rows keeps. */
  ghost predicate Permuted(s: State, t: State) {
    && |t.rows| == |s.rows|
    && t.files == s.files
    && Versions(t.rows) == Versions(s.rows)
    && Extents(t.rows) == Extents(s.rows)
  }

  lemma DeletePermutes(s: State, key: Key, park: nat)
    requires s.n <= |s.rows| && key in s.table && s.table[key] < s.n <= park + 1 <= |s.rows|
    ensures Permuted(s, DeleteAt(s, key, park))
  {
    hide Versions, Extents;
    var row, last := s.table[key], s.n - 1;
    Cycle(s.rows, row, last, park, s.rows[last], s.rows[park], s.rows[row].(ver := s.sync));
  }

  lemma DeleteTable(s: State, key: Key, park: nat)
    requires Inv(s) && key in s.table && s.n <= park + 1 <= |s.rows|
    ensures var t := DeleteAt(s, key, park); TableOk(t.rows, t.n, t.table)
    ensures var t := DeleteAt(s, key, park); t.table.Keys == s.table.Keys - {key}
    ensures var t := DeleteAt(s, key, park);
      forall k :: k in t.table ==> t.rows[t.table[k]] == s.rows[s.table[k]]
  {
    hide Tiled, Extents, SizesOf, RowsOk;
    var t := DeleteAt(s, key, park);
    var row, last := s.table[key], s.n - 1;
    assert forall i :: 0 <= i < last ==> t.rows[i] == if i == row then s.rows[last] else s.rows[i];
  }

  lemma DeleteAtRefines(s: State, key: Key, park: nat)
    requires Inv(s) && key in s.table && s.n <= park + 1 <= |s.rows|
    ensures Inv(DeleteAt(s, key, park)) && Permuted(s, DeleteAt(s, key, park))
    ensures Abs(DeleteAt(s, key, park)) == Abs(s) - {key}
  {
    DeletePermutes(s, key, park);
    DeleteTable(s, key, park);
    DroppedMap(s, DeleteAt(s, key, park), key);
  }

  /** f_delete takes one key out of the map; its version stays among the parked rows. */
  lemma DeleteRefines(s: State, key: Key, revert: bool, unlock: bool)
    requires Inv(s)
    ensures Inv(Delete(s, key, revert, unlock)) && Permuted(s, Delete(s, key, revert, unlock))
    ensures Abs(Delete(s, key, revert, unlock)) == Drop(Abs(s), key, unlock)
  {
    if key in s.table && (!DeleteLocked(s.rows[s.table[key]].flags) || unlock) {
      DeleteAtRefines(s, key, ParkAt(s, key, revert));
    }
  }

  lemma DroppedMap(s: State, t: State, key: Key)
    requires Inv(s) && t.n <= |t.rows| && TableOk(t.rows, t.n, t.table) && t.files == s.files
    requires Extents(t.rows) == Extents(s.rows) && RowsOk(t.rows)
    requires t.table.Keys == s.table.Keys - {key}
    requires forall k :: k in t.table ==> t.rows[t.table[k]] == s.rows[s.table[k]]
    ensures Inv(t) && Abs(t) == Abs(s) - {key}
  {
  }

  lemma UndeletePermutes(s: State, key: Key, at: nat, revert: bool)
    requires s.n <= at < |s.rows|
    ensures var t := UndeleteAt(s, key, at, revert);
      && Permuted(s, t) && t.rows[s.n] == s.rows[at].(ver := s.sync)
      && (forall i :: 0 <= i < s.n ==> t.rows[i] == s.rows[i])
  {
    var line := if revert then Clamp(s) else s.n;
    var via := if at < line then s.n else line;
    Cycle(s.rows, at, via, s.n, s.rows[via], s.rows[s.n], s.rows[at].(ver := s.sync));
    assert s.rows[at := s.rows[s.n]][s.n := s.rows[s.n]][s.n := s.rows[at].(ver := s.sync)]
        == s.rows[at := s.rows[s.n]][s.n := s.rows[at].(ver := s.sync)];
  }

  lemma UndeleteInv(s: State, key: Key, at: nat, revert: bool)
    requires Inv(s) && key !in s.table && s.n <= at < |s.rows| && s.rows[at].key == key
    ensures Inv(UndeleteAt(s, key, at, revert))
    ensures Abs(UndeleteAt(s, key, at, revert)) == Abs(s)[key := EntryOf(s.files, s.rows[at])]
  {
    hide Tiled, SizesOf, Extents;
    var t := UndeleteAt(s, key, at, revert);
    UndeletePermutes(s, key, at, revert);
    TableGrows(s, t, key);
    AbsChanges(s, t, key, EntryOf(s.files, s.rows[at]));
  }

  /** f_undelete brings back exactly the version it was pointed at. */
  lemma UndeleteRefines(s: State, key: Key, row: Option<nat>, revert: bool)
    requires Inv(s)
    ensures Inv(Undelete(s, key, row, revert)) && Permuted(s, Undelete(s, key, row, revert))
    ensures var at := Chosen(s, key, row);
      if key == "" || key in s.table || at.None? then Undelete(s, key, row, revert) == s
      else at.value < |s.rows|
           && Abs(Undelete(s, key, row, revert)) == Abs(s)[key := EntryOf(s.files, s.rows[at.value])]
  {
    var at := Chosen(s, key, row);
    ChosenIsParked(s, key, row);
    if key != "" && key !in s.table && at.Some? {
      UndeletePermutes(s, key, at.value, revert);
      UndeleteInv(s, key, at.value, revert);
    }
  }

  lemma UnwritePermutes(s: State, key: Key, at: nat)
    requires key in s.table && s.table[key] < s.n <= at < |s.rows|
    requires s.rows[at].key == key && s.rows[s.table[key]].key == key
    ensures Permuted(s, UnwriteAt(s, key, at))
  {
    var row := s.table[key];
    var live := s.rows[row].(ver := s.sync);
    var back := s.rows[at].(ver := s.sync, flags := s.rows[row].flags);
    Cycle(s.rows, at, row, row, live, live, back);
    assert s.rows[at := live][row := live][row := back] == s.rows[at := live][row := back];
  }

  lemma UnwriteInv(s: State, key: Key, at: nat)
    requires Inv(s) && key in s.table && s.n <= at < |s.rows| && s.rows[at].key == key
    ensures Inv(UnwriteAt(s, key, at))
    ensures Abs(UnwriteAt(s, key, at)) == Abs(s)[key := Entry(ValueOf(s.files, s.rows[at]), Abs(s)[key].flags)]
  {
    var t := UnwriteAt(s, key, at);
    UnwritePermutes(s, key, at);
    assert forall i :: 0 <= i < s.n && i != s.table[key] ==> t.rows[i] == s.rows[i];
    AbsChanges(s, t, key, Entry(ValueOf(s.files, s.rows[at]), Abs(s)[key].flags));
  }

  /** f_unwrite swaps in exactly the version it was pointed at; the record keeps its preferences. */
  lemma UnwriteRefines(s: State, key: Key, row: Option<nat>)
    requires Inv(s)
    ensures Inv(Unwrite(s, key, row)) && Permuted(s, Unwrite(s, key, row))
    ensures var at := Chosen(s, key, row);
      if key == "" || key !in s.table || at.None? || WriteLocked(s.rows[s.table[key]].flags) then Unwrite(s, key, row) == s
      else at.value < |s.rows|
           && Abs(Unwrite(s, key, row)) == Abs(s)[key := Entry(ValueOf(s.files, s.rows[at.value]), Abs(s)[key].flags)]
  {
    var at := Chosen(s, key, row);
    ChosenIsParked(s, key, row);
    if key != "" && key in s.table && at.Some? && !WriteLocked(s.rows[s.table[key]].flags) {
      UnwritePermutes(s, key, at.value);
      UnwriteInv(s, key, at.value);
    }
  }

  lemma RenameInv(s: State, key: Key, newKey: Key)
    requires Inv(s) && newKey !in s.table && key in s.table
    ensures Inv(Rename(s, key, newKey))
    ensures var t := Rename(s, key, newKey);
      forall k :: k in s.table && k != key ==> k in t.table && t.rows[t.table[k]] == s.rows[s.table[k]]
  {
    hide Tiled, Extents, SizesOf;
    var row := s.table[key];
    SetSameExtent(s.rows, row, s.rows[row].(key := newKey, ver := s.sync), SizesOf(s.files));
  }

  /** f_rename moves an entry to its new name. */
  lemma RenameRefines(s: State, key: Key, newKey: Key)
    requires Inv(s)
    ensures Inv(Rename(s, key, newKey))
    ensures Abs(Rename(s, key, newKey)) == Relabel(Abs(s), key, newKey)
  {
    hide Tiled, Extents, SizesOf, RowsOk;
    if key != newKey && newKey !in s.table && key in s.table {
      RenameInv(s, key, newKey);
      RenamedMap(s, Rename(s, key, newKey), key, newKey);
    }
  }

  lemma RenamedMap(s: State, t: State, key: Key, newKey: Key)
    requires Inv(s) && Inv(t) && newKey !in s.table && key in s.table && t.files == s.files
    requires t.table.Keys == s.table.Keys - {key} + {newKey}
    requires EntryOf(t.files, t.rows[t.table[newKey]]) == EntryOf(s.files, s.rows[s.table[key]])
    requires forall k :: k in s.table && k != key ==> t.rows[t.table[k]] == s.rows[s.table[k]]
    ensures Abs(t) == Relabel(Abs(s), key, newKey)
  {
    hide Tiled, Extents, SizesOf, RowsOk, TableOk, EntryOf;
    var m := Relabel(Abs(s), key, newKey);
    assert Abs(t).Keys == m.Keys;
    forall k | k in t.table ensures Abs(t)[k] == m[k] {
    }
  }
}
