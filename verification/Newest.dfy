/** Which parked version of a key an undo finds first, and when that is the newest one. */
module Newest {
  import opened Bytes
  import opened Rows
  import opened Index
  import opened Runs

  /** The rows a slot discards: the one reused, and the empty one that takes the rest of it. */
  predicate Dropped(slot: Slot, i: nat) {
    slot.Reuse? && (i == slot.row || (slot.ext.Some? && i == slot.ext.value))
  }

  /** What carving leaves alone; whatever else is in the carved index, but the slot itself, has no key. */
  lemma CarvedRows(cfg: Config, split: bool, rows: seq<Row>, line: nat, req: nat, slot: Slot)
    requires ConfigOk(cfg) && SlotOk(cfg, split, rows, line, req, slot) && line <= |rows|
    ensures var c := Carve(rows, slot); var d := Target(rows, slot);
      && line <= d < |c| && |rows| <= |c|
      && (forall i: nat :: i < |rows| && !Dropped(slot, i) ==> c[i] == rows[i] && i != d)
      && (forall i: nat :: i < |c| && i != d && (i < |rows| ==> Dropped(slot, i)) ==> c[i].key == "" && i > d)
      && (forall i: nat :: i < |rows| && Dropped(slot, i) ==> i >= d)
  {
  }

  /** A carved index, seen from the rows it was carved from. */
  ghost predicate CarvedFrom(rows: seq<Row>, c: seq<Row>, d: nat, line: nat, slot: Slot) {
    && line <= d < |c| && line <= |rows| <= |c|
    && (forall i: nat :: i < |rows| && !Dropped(slot, i) ==> c[i] == rows[i] && i != d)
    && (forall i: nat :: i < |c| && i != d && (i < |rows| ==> Dropped(slot, i)) ==> c[i].key == "" && i > d)
    && (forall i: nat :: i < |rows| && Dropped(slot, i) ==> i >= d)
  }

  lemma WriteCarves(cfg: Config, s: State, a: WriteArgs, slot: Slot)
    requires Inv(s) && WriteOk(cfg, s, a, slot)
    ensures var p := Place(cfg, s, slot, a.key, a.val, NewFlags(s, a));
      CarvedFrom(s.rows, p.c, p.d, Line(cfg, s, a.revert), slot)
  {
    hide TableOk, RowsOk, Tiled;
    CarvedRows(cfg, a.split, s.rows, Line(cfg, s, a.revert), Need(a.val), slot);
  }

  predicate NoneBetween(rows: seq<Row>, k: Key, from: nat, to: nat) {
    forall j :: from <= j < to && j < |rows| ==> rows[j].key != k
  }

  // ---- moving a version ----

  /** Where a parked row goes when another key's version moves: the one at the line makes room. */
  function AfterMove(i: nat, line: nat, d: nat): nat { if i == line then d else i }

  /** When the first parked version of another key stays first: it is not discarded, and if it stood at the line,
      no other version of the key lies between there and the slot. */
  predicate MoveKeepsFirst(rows: seq<Row>, slot: Slot, k: Key, i: nat, line: nat, d: nat) {
    !Dropped(slot, i) && (i == line ==> NoneBetween(rows, k, line + 1, d))
  }

  lemma FirstAfterMove(rows: seq<Row>, c: seq<Row>, d: nat, line: nat, slot: Slot, n: nat, hole: nat,
                       parked: Row, placed: Row, k: Key, i: nat)
    requires CarvedFrom(rows, c, d, line, slot) && hole < n <= line && k != "" && parked.key != k
    requires FirstParked(rows, n, k) == Some(i)
    ensures n <= i < |rows|
    ensures var t := Shift(c, d, line, hole, parked, placed); var at := AfterMove(i, line, d);
      && at < |t| && (!Dropped(slot, i) ==> t[at] == rows[i])
      && (FirstParked(t, n, k) == Some(at) <==> MoveKeepsFirst(rows, slot, k, i, line, d))
  {
    hide FirstParked;
    var t, at := Shift(c, d, line, hole, parked, placed), AfterMove(i, line, d);
    FirstParkedIs(rows, n, k);
    FirstParkedIs(t, n, k);
    if MoveKeepsFirst(rows, slot, k, i, line, d) {
      forall j | n <= j < at ensures t[j].key != k {
      }
      FirstParkedAt(t, n, k, at);
    } else if Dropped(slot, i) {
      assert line < d ==> line < |rows| && c[line] == rows[line];
      assert at < |t| && t[at].key != k;
    } else {
      var j :| line + 1 <= j < d && j < |rows| && rows[j].key == k;
      assert t[j] == rows[j];
    }
  }

  // ---- inserting a record ----

  /** Where a parked row goes when a record is inserted: the one at the line to the slot, the first one to the line. */
  function AfterInsert(i: nat, n: nat, line: nat, d: nat): nat {
    if i == line then d else if i == n then line else i
  }

  /** When the first parked version of a key stays first: it is not discarded, and no other version of the key lies
      in the stretch it jumps over. */
  predicate InsertKeepsFirst(rows: seq<Row>, slot: Slot, k: Key, i: nat, n: nat, line: nat, d: nat) {
    && !Dropped(slot, i)
    && (i == line ==> NoneBetween(rows, k, line + 1, d))
    && (i == n && n < line ==> NoneBetween(rows, k, n + 1, line))
  }

  lemma FirstAfterInsert(rows: seq<Row>, c: seq<Row>, d: nat, line: nat, slot: Slot, n: nat, placed: Row, k: Key, i: nat)
    requires CarvedFrom(rows, c, d, line, slot) && n <= line && k != ""
    requires FirstParked(rows, n, k) == Some(i)
    ensures n <= i < |rows|
    ensures var t := Shift(c, d, line, n, c[n], placed); var at := AfterInsert(i, n, line, d);
      && n + 1 <= |t| && at < |t| && (!Dropped(slot, i) ==> t[at] == rows[i] && at > n)
      && (FirstParked(t, n + 1, k) == Some(at) <==> InsertKeepsFirst(rows, slot, k, i, n, line, d))
  {
    hide FirstParked;
    var t, at := Shift(c, d, line, n, c[n], placed), AfterInsert(i, n, line, d);
    FirstParkedIs(rows, n, k);
    FirstParkedIs(t, n + 1, k);
    if InsertKeepsFirst(rows, slot, k, i, n, line, d) {
      forall j | n + 1 <= j < at ensures t[j].key != k {
      }
      FirstParkedAt(t, n + 1, k, at);
    } else if Dropped(slot, i) {
      assert line < d ==> line < |rows| && c[line] == rows[line];
      assert n < line ==> c[n] == rows[n] && rows[n].key != k;
      assert at < |t| && (at <= n || t[at].key != k);
    } else if i == line && !NoneBetween(rows, k, line + 1, d) {
      var j :| line + 1 <= j < d && j < |rows| && rows[j].key == k;
      assert t[j] == rows[j];
    } else {
      var j :| n + 1 <= j < line && j < |rows| && rows[j].key == k;
      assert t[j] == rows[j];
    }
  }

  // ---- the newest version ----

  /** The first parked row of the key, where an undo begins, was stamped last of all its parked rows. */
  ghost predicate NewestFirst(rows: seq<Row>, n: nat, k: Key)
    requires n <= |rows|
  {
    FirstParked(rows, n, k).Some? ==>
      FirstParked(rows, n, k).value < |rows|
      && forall j :: n <= j < |rows| && rows[j].key == k ==> rows[j].ver <= rows[FirstParked(rows, n, k).value].ver
  }

  /** Row `i` was stamped later than every other parked row of its key. */
  ghost predicate Latest(rows: seq<Row>, n: nat, k: Key, i: nat) {
    n <= i < |rows| && rows[i].key == k
    && forall j :: n <= j < |rows| && j != i && rows[j].key == k ==> rows[j].ver < rows[i].ver
  }

  lemma LatestIsNewest(rows: seq<Row>, n: nat, k: Key, i: nat)
    requires n <= |rows| && Latest(rows, n, k, i)
    ensures NewestFirst(rows, n, k) <==> FirstParked(rows, n, k) == Some(i)
  {
    FirstParkedIs(rows, n, k);
  }

  /** How a write that takes a row sends the parked rows on: for a version moved, or for a record inserted. */
  datatype Way = Moving(line: nat, d: nat) | Inserting(n: nat, line: nat, d: nat)

  function Goes(w: Way, i: nat): nat {
    match w
    case Moving(line, d) => AfterMove(i, line, d)
    case Inserting(n, line, d) => AfterInsert(i, n, line, d)
  }

  /** Where a row found behind the records afterwards has come from. */
  function Came(w: Way, j: nat): nat {
    match w
    case Moving(line, d) => if j == d then line else j
    case Inserting(n, line, d) => if j == line then n else if j == d then line else j
  }

  /** A parked version of the key that the slot does not discard. */
  predicate Survives(rows: seq<Row>, slot: Slot, n: nat, k: Key, i: nat) {
    n <= i < |rows| && rows[i].key == k && !Dropped(slot, i)
  }

  /** Of those, the one that will stand first. */
  ghost predicate StandsFirst(rows: seq<Row>, slot: Slot, n: nat, k: Key, w: Way, i: nat) {
    Survives(rows, slot, n, k, i) && forall j: nat :: Survives(rows, slot, n, k, j) ==> Goes(w, i) <= Goes(w, j)
  }

  /** Of those, the one that will stand first was stamped last. */
  ghost predicate FirstIsNewest(rows: seq<Row>, slot: Slot, n: nat, k: Key, w: Way) {
    forall i: nat, j: nat :: StandsFirst(rows, slot, n, k, w, i) && Survives(rows, slot, n, k, j) ==> rows[j].ver <= rows[i].ver
  }

  /** The parked versions of `k` in `t`, behind its `m` records, are the surviving ones, each where it goes. */
  ghost predicate Carried(rows: seq<Row>, slot: Slot, n: nat, k: Key, t: seq<Row>, m: nat, w: Way) {
    && m <= |t|
    && (forall i: nat :: Survives(rows, slot, n, k, i) ==> m <= Goes(w, i) < |t| && t[Goes(w, i)] == rows[i])
    && (forall j: nat :: m <= j < |t| && t[j].key == k ==> Survives(rows, slot, n, k, Came(w, j)) && Goes(w, Came(w, j)) == j)
  }

  lemma NewestIff(rows: seq<Row>, slot: Slot, n: nat, k: Key, t: seq<Row>, m: nat, w: Way)
    requires Carried(rows, slot, n, k, t, m, w)
    ensures NewestFirst(t, m, k) <==> FirstIsNewest(rows, slot, n, k, w)
  {
    hide FirstParked, Goes, Came;
    FirstParkedIs(t, m, k);
    var at := FirstParked(t, m, k);
    if at.Some? {
      var first := Came(w, at.value);
      assert Survives(rows, slot, n, k, first) && Goes(w, first) == at.value;
      assert StandsFirst(rows, slot, n, k, w, first);
      forall i: nat | StandsFirst(rows, slot, n, k, w, i) ensures i < |rows| && rows[i] == t[at.value] {
        assert Goes(w, i) == at.value;
      }
    }
  }

  lemma MoveCarries(rows: seq<Row>, c: seq<Row>, d: nat, line: nat, slot: Slot, n: nat, hole: nat,
                    parked: Row, placed: Row, k: Key)
    requires CarvedFrom(rows, c, d, line, slot) && hole < n <= line && k != "" && parked.key != k
    ensures Carried(rows, slot, n, k, Shift(c, d, line, hole, parked, placed), n, Moving(line, d))
  {
    var t := Shift(c, d, line, hole, parked, placed);
    forall j: nat | n <= j < |t| && t[j].key == k
      ensures Survives(rows, slot, n, k, Came(Moving(line, d), j)) && Goes(Moving(line, d), Came(Moving(line, d), j)) == j
    {
      var x := if j == d then line else j;
      assert t[j] == c[x];
    }
  }

  lemma InsertCarries(rows: seq<Row>, c: seq<Row>, d: nat, line: nat, slot: Slot, n: nat, placed: Row, k: Key)
    requires CarvedFrom(rows, c, d, line, slot) && n <= line && k != ""
    ensures Carried(rows, slot, n, k, Shift(c, d, line, n, c[n], placed), n + 1, Inserting(n, line, d))
  {
    var t, w := Shift(c, d, line, n, c[n], placed), Inserting(n, line, d);
    forall j: nat | n + 1 <= j < |t| && t[j].key == k
      ensures Survives(rows, slot, n, k, Came(w, j)) && Goes(w, Came(w, j)) == j
    {
      assert t[j] == c[Came(w, j)];
    }
  }

  /** The superseded version itself is parked first exactly when no older one of its key stands before the line. */
  lemma OwnAfterMove(rows: seq<Row>, c: seq<Row>, d: nat, line: nat, slot: Slot, n: nat, hole: nat, parked: Row, placed: Row)
    requires CarvedFrom(rows, c, d, line, slot) && hole < n <= line
    ensures var t := Shift(c, d, line, hole, parked, placed);
      FirstParked(t, n, parked.key) == Some(line) <==> NoneBetween(rows, parked.key, n, line)
  {
    hide FirstParked;
    var t := Shift(c, d, line, hole, parked, placed);
    FirstParkedIs(t, n, parked.key);
    assert forall j :: n <= j < line ==> t[j] == rows[j];
    if NoneBetween(rows, parked.key, n, line) {
      FirstParkedAt(t, n, parked.key, line);
    }
  }

  /** Whether the newest version of the written key will stand first: the superseded one, stamped `ver`, unless an
      older one stands before the line. */
  ghost predicate OwnIsNewest(rows: seq<Row>, slot: Slot, n: nat, k: Key, line: nat, d: nat, ver: nat) {
    if NoneBetween(rows, k, n, line) then
      forall j: nat :: Survives(rows, slot, n, k, j) ==> rows[j].ver <= ver
    else
      FirstIsNewest(rows, slot, n, k, Moving(line, d))
      && forall i: nat :: StandsFirst(rows, slot, n, k, Moving(line, d), i) ==> ver <= rows[i].ver
  }

  /** Behind the records the written key then has the surviving versions and, at the line, the superseded one. */
  ghost predicate OwnCarried(rows: seq<Row>, slot: Slot, n: nat, k: Key, t: seq<Row>, line: nat, w: Way, ver: nat) {
    && n <= line < |t| && t[line].key == k && t[line].ver == ver
    && (forall i: nat :: Survives(rows, slot, n, k, i) ==>
          n <= Goes(w, i) < |t| && Goes(w, i) != line && t[Goes(w, i)] == rows[i])
    && (forall j: nat :: n <= j < |t| && j != line && t[j].key == k ==>
          Survives(rows, slot, n, k, Came(w, j)) && Goes(w, Came(w, j)) == j)
    && (NoneBetween(rows, k, n, line) <==> NoneBetween(t, k, n, line))
  }

  lemma OwnCarries(rows: seq<Row>, c: seq<Row>, d: nat, line: nat, slot: Slot, n: nat, hole: nat, parked: Row, placed: Row)
    requires CarvedFrom(rows, c, d, line, slot) && hole < n <= line && parked.key != ""
    ensures OwnCarried(rows, slot, n, parked.key, Shift(c, d, line, hole, parked, placed), line, Moving(line, d), parked.ver)
  {
    var t, w, k := Shift(c, d, line, hole, parked, placed), Moving(line, d), parked.key;
    forall j: nat | n <= j < |t| && j != line && t[j].key == k
      ensures Survives(rows, slot, n, k, Came(w, j)) && Goes(w, Came(w, j)) == j
    {
      assert t[j] == c[Came(w, j)];
    }
    assert forall j :: n <= j < line ==> t[j] == rows[j];
  }

  lemma OwnNewestIff(rows: seq<Row>, slot: Slot, n: nat, k: Key, t: seq<Row>, line: nat, d: nat, ver: nat)
    requires OwnCarried(rows, slot, n, k, t, line, Moving(line, d), ver)
    ensures NewestFirst(t, n, k) <==> OwnIsNewest(rows, slot, n, k, line, d, ver)
  {
    hide FirstParked, Goes, Came;
    var w := Moving(line, d);
    FirstParkedIs(t, n, k);
    if NoneBetween(rows, k, n, line) {
      FirstParkedAt(t, n, k, line);
    } else {
      var at := FirstParked(t, n, k).value;
      var first := Came(w, at);
      assert Survives(rows, slot, n, k, first) && Goes(w, first) == at;
      assert StandsFirst(rows, slot, n, k, w, first);
      forall i: nat | StandsFirst(rows, slot, n, k, w, i) ensures i < |rows| && rows[i] == t[at] {
        assert Goes(w, i) == at;
      }
    }
  }

  // ---- stamps ----

  /** Every row was stamped in an earlier step than the one about to come. */
  predicate Stamped(s: State) {
    Below(s.rows, s.sync)
  }

  predicate Below(rows: seq<Row>, sync: nat) {
    forall i :: 0 <= i < |rows| ==> rows[i].ver < sync
  }

  lemma CarveStamps(rows: seq<Row>, slot: Slot, sync: nat)
    requires Below(rows, sync) && sync > 0
    requires slot.Reuse? ==> slot.row < |rows| && slot.keep <= rows[slot.row].rowSize
    requires slot.Reuse? && slot.ext.Some? ==> slot.ext.value < |rows|
    ensures Below(Carve(rows, slot), sync)
  {
  }

  lemma ShiftStamps(c: seq<Row>, d: nat, line: nat, hole: nat, parked: Row, placed: Row, sync: nat)
    requires hole <= line <= d < |c| && Below(c, sync) && parked.ver < sync && placed.ver < sync
    ensures Below(Shift(c, d, line, hole, parked, placed), sync)
  {
  }

  lemma PlacedStamp(cfg: Config, s: State, slot: Slot, key: Key, val: Payload, flags: Flags)
    requires cfg.reservedRate >= 0.0
    requires slot.Reuse? ==> slot.row < |s.rows| && slot.keep <= s.rows[slot.row].rowSize
    requires slot.Reuse? && slot.ext.Some? ==> slot.ext.value < |s.rows|
    ensures Place(cfg, s, slot, key, val, flags).row.ver == s.sync
  {
    hide NewFiles;
  }

  lemma TakeStamps(cfg: Config, s: State, a: WriteArgs, slot: Slot)
    requires Inv(s) && WriteOk(cfg, s, a, slot) && (Kind(s, a) == Moved || Kind(s, a) == Inserted) && Stamped(s)
    ensures Below(Write(cfg, s, a, slot).rows, s.sync + 1)
  {
    hide RowsOk, Tiled, Extents, SizesOf, Carve, NewFiles, NewRow, Below, Shift;
    var line := Line(cfg, s, a.revert);
    var p := Place(cfg, s, slot, a.key, a.val, NewFlags(s, a));
    PlacedStamp(cfg, s, slot, a.key, a.val, NewFlags(s, a));
    BelowLater(s.rows, s.sync);
    CarveStamps(s.rows, slot, s.sync + 1);
    WriteCarves(cfg, s, a, slot);
    BelowAt(p.c, s.sync + 1, if Kind(s, a) == Moved then s.table[a.key] else s.n);
    if Kind(s, a) == Moved {
      var hole := s.table[a.key];
      ShiftStamps(p.c, p.d, line, hole, p.c[hole].(ver := s.sync), p.row, s.sync + 1);
    } else {
      ShiftStamps(p.c, p.d, line, s.n, p.c[s.n], p.row, s.sync + 1);
    }
  }

  lemma BelowLater(rows: seq<Row>, sync: nat)
    requires Below(rows, sync)
    ensures Below(rows, sync + 1)
  {
  }

  lemma BelowAt(rows: seq<Row>, sync: nat, i: nat)
    requires Below(rows, sync)
    ensures i < |rows| ==> rows[i].ver < sync
  {
  }

  lemma WriteStamps(cfg: Config, s: State, a: WriteArgs, slot: Slot)
    requires Inv(s) && WriteOk(cfg, s, a, slot) && Stamped(s) && s.sync + 1 < SYNC_LIMIT
    ensures Stamped(Write(cfg, s, a, slot)) && s.sync <= Write(cfg, s, a, slot).sync <= s.sync + 1
  {
    hide RowsOk, Tiled, Extents, SizesOf, Place, NewFlags, Carve, Shift, SlotOk;
    if Kind(s, a) == Moved || Kind(s, a) == Inserted {
      TakeStamps(cfg, s, a, slot);
    }
  }

  lemma AppendStamps(cfg: Config, s: State, key: Key, val: Payload, flags: Flags, file: nat)
    requires Inv(s) && ConfigOk(cfg) && PayloadOk(val) && Stamped(s) && s.sync + 1 < SYNC_LIMIT
    ensures var t := AppendNew(cfg, s, key, val, flags, file); Stamped(t) && t.sync == s.sync + 1
  {
    hide RowsOk, Tiled, NewFiles, Shift;
    var p := Place(cfg, s, Append(file), key, val, flags);
    CarveStamps(s.rows, Append(file), s.sync + 1);
    ShiftStamps(p.c, p.d, Clamp(s), s.n, p.c[s.n], p.row, s.sync + 1);
  }

  lemma UndoStamps(s: State, op: Op)
    requires Inv(s) && Stamped(s) && s.sync + 1 < SYNC_LIMIT && (op.OpUndelete? || op.OpUnwrite?)
    ensures var t := if op.OpUndelete? then Undelete(s, op.key, op.row, op.revert) else Unwrite(s, op.key, op.row);
      Stamped(t) && s.sync <= t.sync <= s.sync + 1
  {
    hide RowsOk, Tiled, Extents, SizesOf, FirstParked;
    ChosenIsParked(s, op.key, op.row);
  }

  lemma StepStamps(cfg: Config, s: State, op: Op)
    requires Inv(s) && LegalOp(cfg, s, op) && Stamped(s) && s.sync + 1 < SYNC_LIMIT
    ensures Stamped(Step(cfg, s, op)) && s.sync <= Step(cfg, s, op).sync <= s.sync + 1
  {
    hide RowsOk, Tiled, Extents, SizesOf, Write, AppendNew, Undelete, Unwrite;
    match op
    case OpWrite(a, slot) => WriteStamps(cfg, s, a, slot);
    case OpAppend(a, slot) =>
      if a.key in s.table {
        WriteStamps(cfg, s, AsOverwrite(a), slot);
      } else {
        AppendStamps(cfg, s, a.key, a.val, NewFlags(s, a), slot.file);
      }
    case OpDelete(_, _, _) =>
    case OpUndelete(_, _, _) => UndoStamps(s, op);
    case OpUnwrite(_, _) => UndoStamps(s, op);
    case OpRename(_, _) =>
    case OpSession =>
  }

  /** Until the step counter wraps, no run stamps a row with the step to come. */
  lemma {:induction false} RunStamps(cfg: Config, s: State, ops: seq<Op>)
    requires Inv(s) && LegalRun(cfg, s, ops) && Stamped(s) && s.sync + |ops| < SYNC_LIMIT
    ensures Stamped(Run(cfg, s, ops)) && Run(cfg, s, ops).sync <= s.sync + |ops|
    decreases |ops|
  {
    hide Inv, LegalOp, Step, Stamped;
    if ops != [] {
      StepRefines(cfg, s, ops[0]);
      StepStamps(cfg, s, ops[0]);
      RunStamps(cfg, Step(cfg, s, ops[0]), ops[1..]);
    }
  }

  // ---- whole writes ----

  /** How a write that takes a row sends the parked rows on. */
  function WayOf(cfg: Config, s: State, a: WriteArgs, slot: Slot): Way
    requires s.n <= |s.rows|
  {
    var line, d := Line(cfg, s, a.revert), Target(s.rows, slot);
    if a.key in s.table then Moving(line, d) else Inserting(s.n, line, d)
  }

  /** When the first parked version of a key is still its first one after such a write. */
  predicate KeepsFirst(cfg: Config, s: State, a: WriteArgs, slot: Slot, k: Key, i: nat)
    requires s.n <= |s.rows|
  {
    var line, d := Line(cfg, s, a.revert), Target(s.rows, slot);
    if a.key in s.table then MoveKeepsFirst(s.rows, slot, k, i, line, d)
    else InsertKeepsFirst(s.rows, slot, k, i, s.n, line, d)
  }

  lemma MoveLeaves(rows: seq<Row>, c: seq<Row>, d: nat, line: nat, slot: Slot, hole: nat)
    requires CarvedFrom(rows, c, d, line, slot) && hole < line
    ensures hole < |rows| <= |c| && c[hole] == rows[hole] && line <= d < |c|
    ensures forall i: nat :: i < |rows| && Dropped(slot, i) ==> i >= line
  {
  }

  lemma InsertLeaves(rows: seq<Row>, c: seq<Row>, d: nat, line: nat, slot: Slot, n: nat)
    requires CarvedFrom(rows, c, d, line, slot) && n <= line
    ensures n <= line <= d < |c|
  {
  }

  /** From `rows`, behind `n` records, to `t`, behind `m`: every version of `k` that is not discarded is where it goes,
      and the newest one stands first exactly when it will by what is known before. */
  ghost predicate NewestExactly(rows: seq<Row>, slot: Slot, n: nat, k: Key, t: seq<Row>, m: nat, w: Way) {
    && Carried(rows, slot, n, k, t, m, w)
    && (NewestFirst(t, m, k) <==> FirstIsNewest(rows, slot, n, k, w))
  }

  /** Any write that takes a row, any slot, any key whose version it does not park itself: exactly when the newest
      parked version is the first one afterwards, whether or not it was before. */
  lemma NewestFirstExactly(cfg: Config, s: State, a: WriteArgs, slot: Slot, k: Key)
    requires Inv(s) && WriteOk(cfg, s, a, slot) && (Kind(s, a) == Moved || Kind(s, a) == Inserted)
    requires k != "" && !(Kind(s, a) == Moved && k == a.key)
    ensures var t := Write(cfg, s, a, slot);
      NewestExactly(s.rows, slot, s.n, k, t.rows, t.n, WayOf(cfg, s, a, slot))
  {
    hide RowsOk, Tiled, CarvedFrom, Carve, Carried, NewRow, NewFiles, NewestFirst, FirstIsNewest;
    var t, line := Write(cfg, s, a, slot), Line(cfg, s, a.revert);
    var p := Place(cfg, s, slot, a.key, a.val, NewFlags(s, a));
    WriteCarves(cfg, s, a, slot);
    if Kind(s, a) == Moved {
      var hole := s.table[a.key];
      MoveLeaves(s.rows, p.c, p.d, line, slot, hole);
      MoveCarries(s.rows, p.c, p.d, line, slot, s.n, hole, p.c[hole].(ver := s.sync), p.row, k);
    } else {
      InsertLeaves(s.rows, p.c, p.d, line, slot, s.n);
      InsertCarries(s.rows, p.c, p.d, line, slot, s.n, p.row, k);
    }
    NewestIff(s.rows, slot, s.n, k, t.rows, t.n, WayOf(cfg, s, a, slot));
  }

  /** The same for f_append of a new key, which discards nothing. */
  lemma NewestAfterAppend(cfg: Config, s: State, key: Key, val: Payload, flags: Flags, file: nat, k: Key)
    requires Inv(s) && ConfigOk(cfg) && PayloadOk(val) && k != ""
    ensures var t := AppendNew(cfg, s, key, val, flags, file);
      NewestExactly(s.rows, Append(file), s.n, k, t.rows, t.n, Inserting(s.n, Clamp(s), |s.rows|))
  {
    hide RowsOk, Tiled, CarvedFrom, Carve, Carried, NewRow, NewFiles, NewestFirst, FirstIsNewest;
    var t, slot, line := AppendNew(cfg, s, key, val, flags, file), Append(file), Clamp(s);
    var p := Place(cfg, s, slot, key, val, flags);
    AppendCarves(s, file, line);
    InsertLeaves(s.rows, p.c, p.d, line, slot, s.n);
    InsertCarries(s.rows, p.c, p.d, line, slot, s.n, p.row, k);
    NewestIff(s.rows, slot, s.n, k, t.rows, t.n, Inserting(s.n, line, p.d));
  }

  lemma AppendCarves(s: State, file: nat, line: nat)
    requires line <= |s.rows|
    ensures CarvedFrom(s.rows, Carve(s.rows, Append(file)), |s.rows|, line, Append(file))
  {
  }

  /** And exactly when the very row that stands first does so afterwards. */
  lemma FirstStaysExactly(cfg: Config, s: State, a: WriteArgs, slot: Slot, k: Key, i: nat)
    requires Inv(s) && WriteOk(cfg, s, a, slot) && (Kind(s, a) == Moved || Kind(s, a) == Inserted)
    requires k != "" && !(Kind(s, a) == Moved && k == a.key) && FirstParked(s.rows, s.n, k) == Some(i)
    ensures var t := Write(cfg, s, a, slot); var at := Goes(WayOf(cfg, s, a, slot), i);
      && t.n <= |t.rows| && at < |t.rows| && s.n <= i < |s.rows| && (!Dropped(slot, i) ==> t.rows[at] == s.rows[i])
      && (FirstParked(t.rows, t.n, k) == Some(at) <==> KeepsFirst(cfg, s, a, slot, k, i))
  {
    hide RowsOk, Tiled, Extents, SizesOf, FirstParked, CarvedFrom, Carve, Dropped, MoveKeepsFirst, InsertKeepsFirst, NewRow, NewFiles;
    var line := Line(cfg, s, a.revert);
    var p := Place(cfg, s, slot, a.key, a.val, NewFlags(s, a));
    WriteCarves(cfg, s, a, slot);
    if Kind(s, a) == Moved {
      var hole := s.table[a.key];
      MoveLeaves(s.rows, p.c, p.d, line, slot, hole);
      FirstAfterMove(s.rows, p.c, p.d, line, slot, s.n, hole, p.c[hole].(ver := s.sync), p.row, k, i);
    } else {
      InsertLeaves(s.rows, p.c, p.d, line, slot, s.n);
      FirstAfterInsert(s.rows, p.c, p.d, line, slot, s.n, p.row, k, i);
    }
  }

  /** A write that takes no row leaves all parked rows where they are. */
  lemma OthersKeepFirst(cfg: Config, s: State, a: WriteArgs, slot: Slot, k: Key)
    requires Inv(s) && WriteOk(cfg, s, a, slot) && Kind(s, a) != Moved && Kind(s, a) != Inserted
    ensures var t := Write(cfg, s, a, slot);
      t.n == s.n <= |t.rows| && t.rows[t.n..] == s.rows[s.n..] && FirstParked(t.rows, t.n, k) == FirstParked(s.rows, s.n, k)
  {
    var t := Write(cfg, s, a, slot);
    FirstParkedIs(s.rows, s.n, k);
    FirstParkedIs(t.rows, t.n, k);
    assert t.rows[t.n..] == s.rows[s.n..];
    assert forall j :: s.n <= j < |s.rows| ==> t.rows[j] == s.rows[j];
  }

  /** The key a write supersedes: exactly when its old version is the first parked one, and exactly when the newest
      one is. Where all stamps lie below the session step, both hold exactly when none stands before the line. */
  lemma OwnFirstExactly(cfg: Config, s: State, a: WriteArgs, slot: Slot)
    requires Inv(s) && WriteOk(cfg, s, a, slot) && Kind(s, a) == Moved
    ensures var t := Write(cfg, s, a, slot); var line := Line(cfg, s, a.revert);
      && t.n <= |t.rows|
      && (FirstParked(t.rows, t.n, a.key) == Some(line) <==> NoneBetween(s.rows, a.key, s.n, line))
      && (a.key != "" ==> (NewestFirst(t.rows, t.n, a.key)
                           <==> OwnIsNewest(s.rows, slot, s.n, a.key, line, Target(s.rows, slot), s.sync)))
      && (a.key != "" && Stamped(s) ==> (NewestFirst(t.rows, t.n, a.key) <==> NoneBetween(s.rows, a.key, s.n, line)))
  {
    hide RowsOk, Tiled, FirstParked, CarvedFrom, Carve, NewestFirst, OwnIsNewest, OwnCarried, Dropped, NewRow, NewFiles;
    var line, hole := Line(cfg, s, a.revert), s.table[a.key];
    var p := Place(cfg, s, slot, a.key, a.val, NewFlags(s, a));
    WriteCarves(cfg, s, a, slot);
    MoveLeaves(s.rows, p.c, p.d, line, slot, hole);
    var parked := p.c[hole].(ver := s.sync);
    OwnAfterMove(s.rows, p.c, p.d, line, slot, s.n, hole, parked, p.row);
    if a.key != "" {
      OwnCarries(s.rows, p.c, p.d, line, slot, s.n, hole, parked, p.row);
      OwnNewestIff(s.rows, slot, s.n, a.key, Write(cfg, s, a, slot).rows, line, p.d, s.sync);
      if Stamped(s) {
        OwnWhenStamped(s, slot, a.key, line, p.d);
      }
    }
  }

  lemma OwnWhenStamped(s: State, slot: Slot, k: Key, line: nat, d: nat)
    requires Stamped(s) && s.n <= |s.rows| && line <= d && forall i: nat :: i < |s.rows| && Dropped(slot, i) ==> i >= line
    ensures OwnIsNewest(s.rows, slot, s.n, k, line, d, s.sync) <==> NoneBetween(s.rows, k, s.n, line)
  {
    if !NoneBetween(s.rows, k, s.n, line) {
      FirstParkedIs(s.rows, s.n, k);
      var i := FirstParked(s.rows, s.n, k).value;
      assert StandsFirst(s.rows, slot, s.n, k, Moving(line, d), i);
    }
  }

  /** In every run from the empty database, before the step counter wraps: after a write that supersedes a version,
      the key's newest parked version is the first one exactly when no older one stands before the line. */
  lemma OwnFirstInRuns(cfg: Config, ops: seq<Op>, a: WriteArgs, slot: Slot)
    requires var s0 := State([], 0, 0, {}, map[], map[], 0);
      Inv(s0) && LegalRun(cfg, s0, ops) && |ops| < SYNC_LIMIT
    requires var s := Run(cfg, State([], 0, 0, {}, map[], map[], 0), ops);
      Inv(s) && WriteOk(cfg, s, a, slot) && Kind(s, a) == Moved && a.key != ""
    ensures var s := Run(cfg, State([], 0, 0, {}, map[], map[], 0), ops); var t := Write(cfg, s, a, slot);
      t.n <= |t.rows| && (NewestFirst(t.rows, t.n, a.key) <==> NoneBetween(s.rows, a.key, s.n, Line(cfg, s, a.revert)))
  {
    hide Inv, LegalRun, Run, Write, WriteOk, NewestFirst, OwnIsNewest;
    var s0 := State([], 0, 0, {}, map[], map[], 0);
    RunStamps(cfg, s0, ops);
    OwnFirstExactly(cfg, Run(cfg, s0, ops), a, slot);
  }
}
