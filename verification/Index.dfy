/** The row index as a value: its state, its invariant, the map it stands for, and every step that changes it. */
module Index {
  import opened Bytes
  import opened Rows

  type Files = map<nat, seq<byte>>

  /** What the value codec hands over: packed into the row itself, or bytes for a VAL file. */
  datatype Payload = Inline(typeId: nat, bits: nat, size: nat) | Stored(data: seq<byte>)

  /** A live record as its callers see it. */
  datatype Entry = Entry(val: Payload, flags: Flags)

  datatype Config = Config(minSafe: nat, minValueSize: nat, reservedRate: real, padByte: byte)

  /** REC is `rows[..n]`; SAFE runs from `n` to the session's safe line; DEAD is the rest. */
  datatype State = State(rows: seq<Row>, n: nat, safeLine: nat, chg: set<Key>, table: map<Key, nat>,
                         files: Files, sync: nat)

  /** Where a new version goes: behind the last row, or into the row of a discarded version,
      of which `keep` bytes are used and the rest is released (into `ext`, or behind the last row). */
  datatype Slot = Append(file: nat) | Reuse(row: nat, keep: nat, ext: Option<nat>)

  datatype WriteArgs = WriteArgs(key: Key, val: Payload, flags: Option<Flags>,
                                 revert: bool, split: bool, overwrite: bool, unlock: bool, grows: bool)

  datatype WriteKind = Refused | Unchanged | FlagsOnly | InPlace | Moved | Inserted

  const SYNC_LIMIT := 0x800_0000_0000

  // ---- sizes and reads ----

  ghost predicate ConfigOk(cfg: Config) {
    cfg.minValueSize >= 1 && cfg.reservedRate >= 0.0
  }

  ghost predicate PayloadOk(val: Payload) {
    val.Stored? ==> |val.data| > 0
  }

  lemma NotNegative(a: real, b: real)
    requires a >= 0.0 && b >= 0.0
    ensures a * b >= 0.0
  {
  }

  /** The length a value of `size` bytes is stored with. */
  function PadSize(cfg: Config, size: nat): (r: nat)
    requires cfg.reservedRate >= 0.0
    ensures r >= size && r >= cfg.minValueSize
  {
    var slack := size as real * cfg.reservedRate;
    NotNegative(size as real, cfg.reservedRate);
    Max(cfg.minValueSize, (size as real + slack).Floor)
  }

  function Need(val: Payload): nat {
    if val.Inline? then 0 else |val.data|
  }

  /** How much of a discarded extent a request takes. */
  function KeepSize(cfg: Config, split: bool, req: nat, size: nat): nat
    requires cfg.reservedRate >= 0.0
  {
    if req > 0 && split && size >= PadSize(cfg, req) + Max(64, cfg.minValueSize) then PadSize(cfg, req) else size
  }

  function SizesOf(files: Files): Sizes {
    map f | f in files :: |files[f]|
  }

  function FileOf(files: Files, f: nat): seq<byte> {
    if f in files then files[f] else []
  }

  function Read(files: Files, f: nat, at: nat, size: nat): seq<byte> {
    var store := FileOf(files, f);
    if at >= |store| then [] else store[at..Min(at + size, |store|)]
  }

  /** A stored length of 0 stands for "the value fills its extent". */
  function ValueOf(files: Files, r: Row): Payload {
    if r.rowSize == 0 then
      Inline(r.fileId, r.offset, r.valSize)
    else
      Stored(Read(files, r.fileId, r.offset, if r.valSize > 0 then r.valSize else r.rowSize))
  }

  function EntryOf(files: Files, r: Row): Entry {
    Entry(ValueOf(files, r), r.flags)
  }

  function Next(sync: nat): nat { (sync + 1) % SYNC_LIMIT }

  // ---- the invariant and the abstract map ----

  ghost predicate TableOk(rows: seq<Row>, n: nat, table: map<Key, nat>)
    requires n <= |rows|
  {
    && (forall k :: k in table ==> table[k] < n && rows[table[k]].key == k)
    && (forall i :: 0 <= i < n ==> rows[i].key in table && table[rows[i].key] == i)
  }

  ghost predicate RowsOk(rows: seq<Row>) {
    forall i :: 0 <= i < |rows| && rows[i].rowSize > 0 ==> rows[i].valSize <= rows[i].rowSize
  }

  ghost predicate Inv(s: State) {
    && s.n <= |s.rows|
    && TableOk(s.rows, s.n, s.table)
    && RowsOk(s.rows)
    && Tiled(Extents(s.rows), SizesOf(s.files))
  }

  /** The map the index stands for. */
  ghost function Abs(s: State): map<Key, Entry>
    requires Inv(s)
  {
    map k | k in s.table :: EntryOf(s.files, s.rows[s.table[k]])
  }

  // ---- taking a row for a new version ----

  /** The first row a write may take over. */
  function Line(cfg: Config, s: State, revert: bool): (line: nat)
    requires s.n <= |s.rows|
    ensures s.n <= line <= |s.rows|
  {
    if revert then Min(Max(s.safeLine, s.n + cfg.minSafe), |s.rows|) else s.n
  }

  /** The safe line as every step that only moves rows reads it. */
  function Clamp(s: State): (line: nat)
    requires s.n <= |s.rows|
    ensures s.n <= line <= |s.rows|
  {
    Min(Max(s.safeLine, s.n), |s.rows|)
  }

  /** The first change of a key in a session extends the SAFE region by one row. */
  function Touch(s: State, key: Key, line: nat, revert: bool): State {
    if revert && key !in s.chg then s.(chg := s.chg + {key}, safeLine := line + 1) else s
  }

  predicate SlotOk(cfg: Config, split: bool, rows: seq<Row>, line: nat, req: nat, slot: Slot)
    requires cfg.reservedRate >= 0.0
  {
    slot.Append? || (
      && line <= slot.row < |rows|
      && (if req == 0 then rows[slot.row].rowSize == 0 else rows[slot.row].rowSize >= req)
      && slot.keep == KeepSize(cfg, split, req, rows[slot.row].rowSize)
      && (slot.ext.Some? ==> slot.row < slot.ext.value < |rows| && rows[slot.ext.value].rowSize == 0
                             && slot.keep < rows[slot.row].rowSize))
  }

  /** The rows once the slot is set aside: one row more, or a discarded extent cut to size. */
  function Carve(rows: seq<Row>, slot: Slot): (c: seq<Row>)
    requires slot.Reuse? ==> slot.row < |rows| && slot.keep <= rows[slot.row].rowSize
    requires slot.Reuse? && slot.ext.Some? ==> slot.ext.value < |rows|
    ensures Target(rows, slot) < |c| && |rows| <= |c| <= |rows| + 1
  {
    match slot
    case Append(_) => rows + [FreeRow(0, 0, 0)]
    case Reuse(row, keep, ext) =>
      var r := rows[row];
      if keep == r.rowSize then rows
      else
        var rest := FreeRow(r.fileId, r.offset + keep, r.rowSize - keep);
        var more := if ext.Some? then rows[ext.value := rest] else rows + [rest];
        more[row := FreeRow(r.fileId, r.offset, keep)]
  }

  function Target(rows: seq<Row>, slot: Slot): nat {
    if slot.Append? then |rows| else slot.row
  }

  /** The row the new version gets in the carved index. */
  function NewRow(cfg: Config, files: Files, c: seq<Row>, slot: Slot, key: Key, val: Payload, sync: nat, flags: Flags): Row
    requires cfg.reservedRate >= 0.0
    requires slot.Reuse? ==> slot.row < |c|
  {
    match val
    case Inline(typeId, bits, size) => Row(key, typeId, bits, 0, size, sync, flags)
    case Stored(data) =>
      match slot
      case Append(file) =>
        Row(key, file, |FileOf(files, file)|, PadSize(cfg, |data|), |data|, sync, flags)
      case Reuse(row, _, _) =>
        Row(key, c[row].fileId, c[row].offset, c[row].rowSize, |data|, sync, flags)
  }

  /** The VAL files once the new version is stored; fresh extents are padded to their full length. */
  function NewFiles(cfg: Config, files: Files, c: seq<Row>, slot: Slot, val: Payload): Files
    requires cfg.reservedRate >= 0.0
    requires slot.Reuse? ==> slot.row < |c|
  {
    match val
    case Inline(_, _, _) => files
    case Stored(data) =>
      match slot
      case Append(file) =>
        var store := FileOf(files, file);
        files[file := Splice(store, |store|, data + Fill(cfg.padByte, PadSize(cfg, |data|) - |data|))]
      case Reuse(row, _, _) =>
        files[c[row].fileId := Splice(FileOf(files, c[row].fileId), c[row].offset, data)]
  }

  /** A new version on its way into the index: the carved rows, the row whose place it takes,
      its own row, and the VAL files with its bytes in them. */
  datatype Placing = Placing(c: seq<Row>, d: nat, row: Row, files: Files)

  function Place(cfg: Config, s: State, slot: Slot, key: Key, val: Payload, flags: Flags): Placing
    requires cfg.reservedRate >= 0.0
    requires slot.Reuse? ==> slot.row < |s.rows| && slot.keep <= s.rows[slot.row].rowSize
    requires slot.Reuse? && slot.ext.Some? ==> slot.ext.value < |s.rows|
  {
    var c := Carve(s.rows, slot);
    Placing(c, Target(s.rows, slot), NewRow(cfg, s.files, c, slot, key, val, s.sync, flags),
            NewFiles(cfg, s.files, c, slot, val))
  }

  // ---- the steps ----

  /** What stood at `line` fills the slot `d`, the parked row goes to `line`, the new row into the hole. */
  function Shift(c: seq<Row>, d: nat, line: nat, hole: nat, parked: Row, placed: Row): seq<Row>
    requires hole <= line <= d < |c|
  {
    c[d := c[line]][line := parked][hole := placed]
  }

  /** An existing key whose version moves: the old version is parked at `line`. */
  function MoveAt(s: State, p: Placing, key: Key, line: nat): State
    requires key in s.table && s.table[key] <= line <= p.d < |p.c|
  {
    var row := s.table[key];
    s.(rows := Shift(p.c, p.d, line, row, p.c[row].(ver := s.sync), p.row),
       files := p.files,
       sync := Next(s.sync))
  }

  /** A new key: it becomes row `n`, and the first SAFE row moves behind SAFE. */
  function InsertAt(s: State, p: Placing, key: Key, line: nat): State
    requires s.n <= line <= p.d < |p.c|
  {
    s.(rows := Shift(p.c, p.d, line, s.n, p.c[s.n], p.row),
       n := s.n + 1,
       table := s.table[key := s.n],
       files := p.files,
       sync := Next(s.sync))
  }

  /** The value replaces the old one inside the same row and extent. */
  function Overwrite(s: State, key: Key, val: Payload, flags: Flags): State
    requires key in s.table && s.table[key] < |s.rows|
  {
    var row := s.table[key];
    var r := s.rows[row];
    match val
    case Inline(typeId, bits, size) =>
      s.(rows := s.rows[row := Row(key, typeId, bits, 0, size, s.sync, flags)], sync := Next(s.sync))
    case Stored(data) =>
      s.(rows := s.rows[row := r.(valSize := |data|, ver := s.sync, flags := flags)],
         files := s.files[r.fileId := Splice(FileOf(s.files, r.fileId), r.offset, data)],
         sync := Next(s.sync))
  }

  function SetFlags(s: State, key: Key, flags: Flags): State
    requires key in s.table && s.table[key] < |s.rows|
  {
    var row := s.table[key];
    s.(rows := s.rows[row := s.rows[row].(flags := flags)], sync := Next(s.sync))
  }

  /** Whether the stored value is the one about to be written. */
  predicate Same(files: Files, r: Row, val: Payload) {
    match val
    case Inline(typeId, bits, size) => r.rowSize == 0 && r.fileId == typeId && r.offset == bits && r.valSize == size
    case Stored(data) =>
      r.rowSize > 0 && r.rowSize >= |data| && r.valSize == |data| && Read(files, r.fileId, r.offset, |data|) == data
  }

  /** Whether the new value goes where the old one lies: it fits, and no history is owed for it. */
  predicate KeepsRow(s: State, a: WriteArgs, flags: Flags)
    requires a.key in s.table && s.table[a.key] < |s.rows|
  {
    var r := s.rows[s.table[a.key]];
    && (if a.val.Inline? then r.rowSize == 0 else r.rowSize > 0 && r.rowSize >= |a.val.data|)
    && (!(a.revert && !flags.noRevert) || a.key in s.chg)
  }

  /** The branch a write takes. */
  function Kind(s: State, a: WriteArgs): WriteKind
    requires a.key in s.table ==> s.table[a.key] < |s.rows|
  {
    if a.key !in s.table then Inserted
    else
      var r := s.rows[s.table[a.key]];
      var flags := NewFlags(s, a);
      if (r.flags.readOnly || (r.flags.appendOnly && !a.grows)) && !a.unlock then Refused
      else if !a.overwrite && Same(s.files, r, a.val) then if flags == r.flags then Unchanged else FlagsOnly
      else if KeepsRow(s, a, flags) then InPlace
      else Moved
  }

  function NewFlags(s: State, a: WriteArgs): Flags
    requires a.key in s.table ==> s.table[a.key] < |s.rows|
  {
    match a.flags
    case Some(f) => f
    case None => if a.key in s.table then s.rows[s.table[a.key]].flags else NO_FLAGS
  }

  ghost predicate WriteOk(cfg: Config, s: State, a: WriteArgs, slot: Slot)
    requires s.n <= |s.rows|
  {
    ConfigOk(cfg) && PayloadOk(a.val) && SlotOk(cfg, a.split, s.rows, Line(cfg, s, a.revert), Need(a.val), slot)
  }

  function Write(cfg: Config, s: State, a: WriteArgs, slot: Slot): State
    requires Inv(s) && WriteOk(cfg, s, a, slot)
  {
    var line := Line(cfg, s, a.revert);
    var flags := NewFlags(s, a);
    match Kind(s, a)
    case Refused => s
    case Unchanged => s
    case FlagsOnly => SetFlags(s, a.key, flags)
    case InPlace => Overwrite(s, a.key, a.val, flags)
    case Moved => MoveAt(Touch(s, a.key, line, a.revert), Place(cfg, s, slot, a.key, a.val, flags), a.key, line)
    case Inserted => InsertNew(cfg, s, a, slot)
  }

  function InsertNew(cfg: Config, s: State, a: WriteArgs, slot: Slot): State
    requires Inv(s) && WriteOk(cfg, s, a, slot)
  {
    var line := Line(cfg, s, a.revert);
    Advance(InsertAt(Touch(s, a.key, line, a.revert), Place(cfg, s, slot, a.key, a.val, NewFlags(s, a)), a.key, line),
            if a.revert then 0 else 1)
  }

  function Advance(s: State, steps: nat): State {
    s.(safeLine := s.safeLine + steps)
  }

  /** The cheap path for bulk loads: an absent key always gets a row of its own behind all others. */
  function AppendNew(cfg: Config, s: State, key: Key, val: Payload, flags: Flags, file: nat): State
    requires Inv(s) && ConfigOk(cfg) && PayloadOk(val)
  {
    Advance(InsertAt(s, Place(cfg, s, Append(file), key, val, flags), key, Clamp(s)), 1)
  }

  predicate DeleteLocked(f: Flags) {
    f.readOnly || f.appendOnly || f.noDelete
  }

  /** The last record fills the hole; the deleted version goes to `park`, and what stood there closes up. */
  function DeleteAt(s: State, key: Key, park: nat): State
    requires key in s.table && s.table[key] < s.n <= park + 1 <= |s.rows|
  {
    var row := s.table[key];
    var last := s.n - 1;
    s.(rows := s.rows[row := s.rows[last]][last := s.rows[park]][park := s.rows[row].(ver := s.sync)],
       n := last,
       table := (if row < last then s.table[s.rows[last].key := row] else s.table) - {key},
       sync := Next(s.sync))
  }

  /** Where a deleted version is parked: just behind the records,
      or at the end of SAFE when the key already changed in this session. */
  function ParkAt(s: State, key: Key, revert: bool): nat
    requires 0 < s.n <= |s.rows|
  {
    if revert && key in s.chg then Clamp(s) - 1 else s.n - 1
  }

  function Delete(s: State, key: Key, revert: bool, unlock: bool): State
    requires Inv(s)
  {
    if key !in s.table || (DeleteLocked(s.rows[s.table[key]].flags) && !unlock) then s
    else DeleteAt(s, key, ParkAt(s, key, revert))
  }

  /** The first parked row of a key, scanning from the end of the records. */
  function FirstParked(rows: seq<Row>, from: nat, key: Key): Option<nat>
    requires from <= |rows|
    decreases |rows| - from
  {
    if from == |rows| then None
    else if rows[from].key == key then Some(from)
    else FirstParked(rows, from + 1, key)
  }

  /** Makes the parked row `at` live again: it becomes row `n`, and the rows in between close the gap. */
  function UndeleteAt(s: State, key: Key, at: nat, revert: bool): State
    requires s.n <= at < |s.rows|
  {
    var line := if revert then Clamp(s) else s.n;
    var back := s.rows[at].(ver := s.sync);
    var t := if at < line then
               s.(rows := s.rows[at := s.rows[s.n]][s.n := back], chg := s.chg - {key})
             else
               s.(rows := s.rows[at := s.rows[line]][line := s.rows[s.n]][s.n := back],
                  chg := if revert then s.chg + {key} else s.chg,
                  safeLine := if revert then line + 1 else s.n);
    t.(n := s.n + 1, table := s.table[key := s.n], sync := Next(s.sync))
  }

  /** The row an undo acts on: the one named, if it holds the key, else the first parked row of the key. */
  function Chosen(s: State, key: Key, row: Option<nat>): Option<nat>
    requires s.n <= |s.rows|
  {
    match row
    case None => FirstParked(s.rows, s.n, key)
    case Some(i) => if s.n <= i < |s.rows| && s.rows[i].key == key then row else None
  }

  function Undelete(s: State, key: Key, row: Option<nat>, revert: bool): State
    requires Inv(s)
  {
    var at := Chosen(s, key, row);
    if key == "" || key in s.table || at.None? then s
    else
      ChosenIsParked(s, key, row);
      UndeleteAt(s, key, at.value, revert)
  }

  predicate WriteLocked(f: Flags) {
    f.readOnly || f.appendOnly
  }

  /** Swaps the live version of a key with a parked one; the preferences stay with the record. */
  function UnwriteAt(s: State, key: Key, at: nat): State
    requires key in s.table && s.table[key] < s.n <= at < |s.rows|
  {
    var row := s.table[key];
    var live := s.rows[row];
    var parked := s.rows[at];
    s.(rows := s.rows[at := live.(ver := s.sync)][row := parked.(ver := s.sync, flags := live.flags)],
       chg := s.chg - {key},
       sync := Next(s.sync))
  }

  function Unwrite(s: State, key: Key, row: Option<nat>): State
    requires Inv(s)
  {
    var at := Chosen(s, key, row);
    if key == "" || key !in s.table || at.None? || WriteLocked(s.rows[s.table[key]].flags) then s
    else
      ChosenIsParked(s, key, row);
      UnwriteAt(s, key, at.value)
  }

  function Rename(s: State, key: Key, newKey: Key): State
    requires Inv(s)
  {
    if key == newKey || newKey in s.table || key !in s.table then s
    else
      var row := s.table[key];
      s.(rows := s.rows[row := s.rows[row].(key := newKey, ver := s.sync)],
         table := (s.table - {key})[newKey := row],
         sync := Next(s.sync))
  }

  /** Opening the database starts a session with nothing changed and nothing parked. */
  function NewSession(s: State): State {
    s.(safeLine := s.n, chg := {})
  }

  lemma {:induction false} FirstParkedIs(rows: seq<Row>, from: nat, key: Key)
    requires from <= |rows|
    ensures var at := FirstParked(rows, from, key);
      && (at.None? ==> forall i :: from <= i < |rows| ==> rows[i].key != key)
      && (at.Some? ==> from <= at.value < |rows| && rows[at.value].key == key
                       && forall i :: from <= i < at.value ==> rows[i].key != key)
    decreases |rows| - from
  {
    if from < |rows| && rows[from].key != key {
      FirstParkedIs(rows, from + 1, key);
    }
  }

  lemma FirstParkedAt(rows: seq<Row>, from: nat, key: Key, at: nat)
    requires from <= at < |rows| && rows[at].key == key
    requires forall i :: from <= i < at ==> rows[i].key != key
    ensures FirstParked(rows, from, key) == Some(at)
  {
    FirstParkedIs(rows, from, key);
  }

  lemma ChosenIsParked(s: State, key: Key, row: Option<nat>)
    requires s.n <= |s.rows|
    ensures var at := Chosen(s, key, row); at.Some? ==> s.n <= at.value < |s.rows| && s.rows[at.value].key == key
  {
    FirstParkedIs(s.rows, s.n, key);
  }
}
