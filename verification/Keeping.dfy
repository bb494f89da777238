/** What a session keeps, whatever is written, deleted and undone in it: every version it started with. */
module Keeping {
  import opened Bytes
  import opened Rows
  import opened Index
  import opened Refine
  import opened History
  import opened Writes
  import opened Runs

  /** The version `k` had at the start is stored in row `i` with its bytes untouched, out of reach of any reuse; and if
      that is the live row, the key does not count as changed, so that nothing is stored over it. */
  ghost predicate StoredAt(s0: State, s: State, k: Key, i: nat)
    requires k in s0.table && s0.table[k] < |s0.rows|
  {
    && i < s.safeLine && i < |s.rows|
    && VersionOf(s.rows[i]) == VersionOf(s0.rows[s0.table[k]])
    && ValueOf(s.files, s.rows[i]) == ValueOf(s0.files, s0.rows[s0.table[k]])
    && (i < s.n ==> k in s.table && s.table[k] == i && k !in s.chg)
  }

  ghost predicate Keeps(s0: State, s: State) {
    && Inv(s0) && Inv(s) && s.n <= s.safeLine <= |s.rows|
    && forall k :: k in s0.table ==> exists i: nat :: StoredAt(s0, s, k, i)
  }

  /** The steps of a session that takes care: writes under REVERT of records that do not opt out, appends of new records,
      deletes, undeletes under REVERT, unwrites of changed keys; but no key that has changed and then been deleted
      is inserted again. */
  ghost predicate Careful(s: State, op: Op)
    requires Inv(s)
  {
    match op
    case OpWrite(a, _) =>
      && a.revert
      && (if a.key in s.table then !(if a.flags.Some? then a.flags.value else s.rows[s.table[a.key]].flags).noRevert
          else a.key !in s.chg)
    case OpAppend(a, _) => a.key !in s.table
    case OpDelete(_, _, _) => true
    case OpUndelete(_, _, revert) => revert
    case OpUnwrite(key, _) => key in s.chg
    case OpRename(_, _) => false
    case OpSession => false
  }

  lemma KeysIn(s: State)
    requires Inv(s)
    ensures s.n <= |s.rows| && forall k :: k in s.table ==> s.table[k] < s.n && s.rows[s.table[k]].key == k
    ensures forall i :: 0 <= i < s.n ==> s.rows[i].key in s.table && s.table[s.rows[i].key] == i
  {
  }

  lemma StartKeeps(s0: State)
    requires Inv(s0)
    ensures Keeps(s0, NewSession(s0))
  {
    var s := NewSession(s0);
    forall k | k in s0.table ensures exists i: nat :: StoredAt(s0, s, k, i) {
      assert StoredAt(s0, s, k, s0.table[k]);
    }
  }

  // ---- writes ----

  /** All rows read as before and keep their places. */
  ghost predicate SameReading(s: State, t: State) {
    && t.n == s.n && t.table == s.table && t.chg == s.chg && t.safeLine == s.safeLine && |t.rows| == |s.rows|
    && forall i :: 0 <= i < |s.rows| ==>
         VersionOf(t.rows[i]) == VersionOf(s.rows[i]) && ValueOf(t.files, t.rows[i]) == ValueOf(s.files, s.rows[i])
  }

  lemma SameKeeps(s0: State, s: State, t: State)
    requires Keeps(s0, s) && Inv(t) && SameReading(s, t)
    ensures Keeps(s0, t)
  {
    hide Inv, ValueOf, VersionOf;
    KeysIn(s0);
    forall k | k in s0.table ensures exists i: nat :: StoredAt(s0, t, k, i) {
      var i: nat :| StoredAt(s0, s, k, i);
      assert StoredAt(s0, t, k, i);
    }
  }

  lemma StoredKey(s0: State, s: State, k: Key, i: nat)
    requires Inv(s0) && k in s0.table && s0.table[k] < |s0.rows| && StoredAt(s0, s, k, i)
    ensures s.rows[i].key == k
  {
  }

  /** An overwrite in place of a changed key touches none of them. */
  lemma InPlaceKept(s0: State, s: State, key: Key, val: Payload, flags: Flags)
    requires Keeps(s0, s) && key in s.table && key in s.chg && Fits(s.rows[s.table[key]], val)
    ensures Keeps(s0, Overwrite(s, key, val, flags))
  {
    hide ValueOf, Tiled, Extents, SizesOf, RowsOk;
    var t := Overwrite(s, key, val, flags);
    OverwriteInv(s, key, val, flags);
    InPlaceStays(s, key, val, flags);
    KeysIn(s0);
    forall k | k in s0.table ensures exists i: nat :: StoredAt(s0, t, k, i) {
      var i: nat :| StoredAt(s0, s, k, i);
      StoredKey(s0, s, k, i);
      assert StoredAt(s0, t, k, i);
    }
  }

  /** What a moved version leaves where it is. */
  ghost predicate MovedOn(s: State, t: State, key: Key, line: nat) {
    && t.n == s.n && t.table == s.table && s.n <= s.safeLine <= line <= |s.rows| && line < |t.rows|
    && key in s.table && s.table[key] < s.n
    && t.chg == s.chg + {key} && t.safeLine == (if key in s.chg then s.safeLine else line + 1)
    && (forall i :: 0 <= i < line && i != s.table[key] ==> t.rows[i] == s.rows[i])
    && (forall i :: 0 <= i < line ==> ValueOf(t.files, s.rows[i]) == ValueOf(s.files, s.rows[i]))
    && t.rows[line] == s.rows[s.table[key]].(ver := s.sync)
  }

  lemma MovedOnKeeps(s0: State, s: State, t: State, key: Key, line: nat)
    requires Keeps(s0, s) && Inv(t) && MovedOn(s, t, key, line)
    ensures Keeps(s0, t)
  {
    hide Inv;
    KeysIn(s0);
    KeysIn(s);
    forall k | k in s0.table ensures exists i: nat :: StoredAt(s0, t, k, i) {
      var i: nat :| StoredAt(s0, s, k, i);
      StoredKey(s0, s, k, i);
      if i == s.table[key] {
        assert StoredAt(s0, t, k, line);
      } else {
        assert StoredAt(s0, t, k, i);
      }
    }
  }

  /** What an insert, or an append, leaves where it is. */
  ghost predicate InsertedOn(s: State, t: State, key: Key, line: nat) {
    && t.n == s.n + 1 && t.table == s.table[key := s.n] && s.n <= s.safeLine <= line <= |s.rows| && line < |t.rows|
    && key !in s.table && t.safeLine == line + 1 && (forall x :: x != key && x in t.chg ==> x in s.chg)
    && (forall i :: 0 <= i < line && i != s.n ==> t.rows[i] == s.rows[i])
    && (forall i :: 0 <= i < line ==> ValueOf(t.files, s.rows[i]) == ValueOf(s.files, s.rows[i]))
    && (s.n < line ==> t.rows[line] == s.rows[s.n])
  }

  lemma InsertedOnKeeps(s0: State, s: State, t: State, key: Key, line: nat)
    requires Keeps(s0, s) && Inv(t) && InsertedOn(s, t, key, line)
    ensures Keeps(s0, t)
  {
    hide Inv;
    KeysIn(s0);
    KeysIn(s);
    forall k | k in s0.table ensures exists i: nat :: StoredAt(s0, t, k, i) {
      var i: nat :| StoredAt(s0, s, k, i);
      assert StoredAt(s0, t, k, if i == s.n then line else i);
    }
  }

  lemma PlacingLong(s: State, p: Placing, key: Key, val: Payload, flags: Flags, line: nat)
    requires PlacingOk(s, p, key, val, flags, line)
    ensures line <= |s.rows| && line <= p.d < |p.c|
  {
  }

  lemma MovesOn(s: State, p: Placing, a: WriteArgs, flags: Flags, line: nat)
    requires Inv(s) && a.key in s.table && a.revert && s.n <= s.safeLine <= line <= |s.rows|
    requires PlacingOk(Touch(s, a.key, line, true), p, a.key, a.val, flags, line)
    ensures line <= p.d < |p.c| && MovedOn(s, MoveAt(Touch(s, a.key, line, true), p, a.key, line), a.key, line)
  {
    hide PlacingOk, Tiled, Extents, SizesOf, RowsOk, ValueOf;
    PlacingLong(Touch(s, a.key, line, true), p, a.key, a.val, flags, line);
    MoveLayout(Touch(s, a.key, line, true), p, a.key, a.val, flags, line);
  }

  lemma MovedKept(s0: State, cfg: Config, s: State, a: WriteArgs, slot: Slot)
    requires Keeps(s0, s) && WriteOk(cfg, s, a, slot) && a.revert && Kind(s, a) == Moved
    ensures Keeps(s0, Write(cfg, s, a, slot))
  {
    hide RowsOk, Tiled, PlacingOk, ValueOf, Place, Extents, SizesOf, MovedOn, StoredAt, Touch;
    var line := Line(cfg, s, true);
    PlaceOkTouched(cfg, s, a, slot);
    MovesOn(s, Place(cfg, s, slot, a.key, a.val, NewFlags(s, a)), a, NewFlags(s, a), line);
    WriteRefines(cfg, s, a, slot);
    MovedOnKeeps(s0, s, Write(cfg, s, a, slot), a.key, line);
  }

  lemma InsertedKept(s0: State, cfg: Config, s: State, a: WriteArgs, slot: Slot)
    requires Keeps(s0, s) && WriteOk(cfg, s, a, slot) && a.revert && a.key !in s.table && a.key !in s.chg
    ensures Keeps(s0, InsertNew(cfg, s, a, slot))
  {
    hide RowsOk, Tiled, PlacingOk, ValueOf, Place, Extents, SizesOf;
    var line := Line(cfg, s, true);
    PlaceOkTouched(cfg, s, a, slot);
    InsertLayout(Touch(s, a.key, line, true), Place(cfg, s, slot, a.key, a.val, NewFlags(s, a)),
                 a.key, a.val, NewFlags(s, a), line);
    InsertedRefines(cfg, s, a, slot);
    PlacingLong(Touch(s, a.key, line, true), Place(cfg, s, slot, a.key, a.val, NewFlags(s, a)), a.key, a.val, NewFlags(s, a), line);
    InsertedOnKeeps(s0, s, InsertNew(cfg, s, a, slot), a.key, line);
  }

  lemma WriteKept(s0: State, cfg: Config, s: State, a: WriteArgs, slot: Slot)
    requires Keeps(s0, s) && WriteOk(cfg, s, a, slot) && Careful(s, OpWrite(a, slot))
    ensures Keeps(s0, Write(cfg, s, a, slot))
  {
    hide Tiled, Extents, SizesOf, RowsOk, Place, ValueOf, StoredAt, MoveAt, InsertNew;
    match Kind(s, a)
    case Refused =>
    case Unchanged =>
    case FlagsOnly =>
      SetFlagsRefines(s, a.key, NewFlags(s, a));
      FlagsReadSame(s, a.key, NewFlags(s, a));
      SameKeeps(s0, s, SetFlags(s, a.key, NewFlags(s, a)));
    case InPlace => InPlaceKept(s0, s, a.key, a.val, NewFlags(s, a));
    case Moved => MovedKept(s0, cfg, s, a, slot);
    case Inserted => InsertedKept(s0, cfg, s, a, slot);
  }

  lemma FlagsReadSame(s: State, key: Key, flags: Flags)
    requires key in s.table && s.table[key] < |s.rows|
    ensures SameReading(s, SetFlags(s, key, flags))
  {
  }

  lemma AppendKept(s0: State, cfg: Config, s: State, key: Key, val: Payload, flags: Flags, file: nat)
    requires Keeps(s0, s) && ConfigOk(cfg) && PayloadOk(val) && key !in s.table
    ensures Keeps(s0, AppendNew(cfg, s, key, val, flags, file))
  {
    hide RowsOk, Tiled, PlacingOk, ValueOf, Place, Extents, SizesOf;
    var p := Place(cfg, s, Append(file), key, val, flags);
    PlaceOk(cfg, false, s, Append(file), key, val, flags, Clamp(s));
    InsertLayout(s, p, key, val, flags, Clamp(s));
    AppendRefines(cfg, s, key, val, flags, file);
    PlacingLong(s, p, key, val, flags, Clamp(s));
    InsertedOnKeeps(s0, s, AppendNew(cfg, s, key, val, flags, file), key, Clamp(s));
  }

  // ---- deleting and undoing ----

  lemma DeleteKept(s0: State, s: State, key: Key, park: nat)
    requires Keeps(s0, s) && key in s.table && s.table[key] < s.n
    requires park == s.n - 1 || (s.n <= park < s.safeLine && key in s.chg)
    requires Inv(DeleteAt(s, key, park))
    ensures Keeps(s0, DeleteAt(s, key, park))
  {
    hide Inv;
    var t, row, last := DeleteAt(s, key, park), s.table[key], s.n - 1;
    KeysIn(s0);
    KeysIn(s);
    KeysIn(t);
    forall k | k in s0.table ensures exists i: nat :: StoredAt(s0, t, k, i) {
      var i: nat :| StoredAt(s0, s, k, i);
      StoredKey(s0, s, k, i);
      assert StoredAt(s0, t, k, if i == row then park else if i == last then row else if i == park then last else i);
    }
  }

  lemma UndeleteKept(s0: State, s: State, key: Key, at: nat)
    requires Keeps(s0, s) && key !in s.table && s.n <= at < |s.rows| && s.rows[at].key == key
    requires Inv(UndeleteAt(s, key, at, true))
    ensures Keeps(s0, UndeleteAt(s, key, at, true))
  {
    hide Inv;
    var t := UndeleteAt(s, key, at, true);
    KeysIn(s0);
    KeysIn(s);
    forall k | k in s0.table ensures exists i: nat :: StoredAt(s0, t, k, i) {
      var i: nat :| StoredAt(s0, s, k, i);
      StoredKey(s0, s, k, i);
      assert StoredAt(s0, t, k, if i == at then s.n else if i == s.n then Min(at, s.safeLine) else i);
    }
  }

  lemma UnwriteKept(s0: State, s: State, key: Key, at: nat)
    requires Keeps(s0, s) && key in s.table && key in s.chg && s.n <= at < |s.rows| && s.rows[at].key == key
    requires Inv(UnwriteAt(s, key, at))
    ensures Keeps(s0, UnwriteAt(s, key, at))
  {
    hide Inv;
    KeysIn(s0);
    KeysIn(s);
    var t := UnwriteAt(s, key, at);
    forall k | k in s0.table ensures exists i: nat :: StoredAt(s0, t, k, i) {
      var i: nat :| StoredAt(s0, s, k, i);
      StoredKey(s0, s, k, i);
      assert StoredAt(s0, t, k, if i == at then s.table[key] else i);
    }
  }

  lemma UndoKept(s0: State, s: State, op: Op)
    requires Keeps(s0, s) && Careful(s, op) && (op.OpUndelete? || op.OpUnwrite?)
    ensures op.OpUndelete? ==> Keeps(s0, Undelete(s, op.key, op.row, op.revert))
    ensures op.OpUnwrite? ==> Keeps(s0, Unwrite(s, op.key, op.row))
  {
    hide Tiled, Extents, SizesOf, RowsOk, TableOk, StoredAt, UndeleteAt, UnwriteAt;
    ChosenIsParked(s, op.key, op.row);
    var at := Chosen(s, op.key, op.row);
    if op.OpUndelete? {
      if op.key != "" && op.key !in s.table && at.Some? {
        UndeleteInv(s, op.key, at.value, true);
        UndeleteKept(s0, s, op.key, at.value);
      }
    } else if op.key != "" && op.key in s.table && at.Some? {
      UnwriteInv(s, op.key, at.value);
      KeysIn(s);
      UnwriteKept(s0, s, op.key, at.value);
    }
  }

  lemma DeleteStepKept(s0: State, s: State, key: Key, revert: bool, unlock: bool)
    requires Keeps(s0, s)
    ensures Keeps(s0, Delete(s, key, revert, unlock))
  {
    hide Tiled, Extents, SizesOf, RowsOk, StoredAt, DeleteAt;
    if key in s.table {
      DeleteAtRefines(s, key, ParkAt(s, key, revert));
      DeleteKept(s0, s, key, ParkAt(s, key, revert));
    }
  }

  // ---- a whole session ----

  lemma StepKeeps(s0: State, cfg: Config, s: State, op: Op)
    requires Keeps(s0, s) && LegalOp(cfg, s, op) && Careful(s, op)
    ensures Keeps(s0, Step(cfg, s, op))
  {
    hide Keeps;
    assert Inv(s) by { KeepsSound(s0, s); }
    match op
    case OpWrite(a, slot) => WriteKept(s0, cfg, s, a, slot);
    case OpAppend(a, slot) => AppendKept(s0, cfg, s, a.key, a.val, NewFlags(s, a), slot.file);
    case OpDelete(key, revert, unlock) => DeleteStepKept(s0, s, key, revert, unlock);
    case OpUndelete(_, _, _) => UndoKept(s0, s, op);
    case OpUnwrite(_, _) => UndoKept(s0, s, op);
    case _ =>
  }

  lemma KeepsSound(s0: State, s: State)
    requires Keeps(s0, s)
    ensures Inv(s)
  {
  }

  ghost predicate CarefulRun(cfg: Config, s: State, ops: seq<Op>)
    requires Inv(s) && LegalRun(cfg, s, ops)
    decreases |ops|
  {
    ops == [] || (Careful(s, ops[0]) && (StepRefines(cfg, s, ops[0]); CarefulRun(cfg, Step(cfg, s, ops[0]), ops[1..])))
  }

  lemma {:induction false} RunKeepsAll(s0: State, cfg: Config, s: State, ops: seq<Op>)
    requires Keeps(s0, s) && LegalRun(cfg, s, ops) && CarefulRun(cfg, s, ops)
    ensures Keeps(s0, Run(cfg, s, ops))
    decreases |ops|
  {
    hide Keeps, Careful, LegalOp, Step;
    if ops != [] {
      KeepsSound(s0, s);
      StepRefines(cfg, s, ops[0]);
      StepKeeps(s0, cfg, s, ops[0]);
      RunKeepsAll(s0, cfg, Step(cfg, s, ops[0]), ops[1..]);
    }
  }

  /** After any careful session every version it started with is still stored with its bytes untouched: as the live one,
      which the next write will park, or parked out of reach of any reuse. */
  lemma SessionKeeps(cfg: Config, s0: State, ops: seq<Op>, k: Key)
    requires Inv(s0) && LegalRun(cfg, NewSession(s0), ops) && CarefulRun(cfg, NewSession(s0), ops) && k in s0.table
    ensures s0.table[k] < |s0.rows| && exists i: nat :: StoredAt(s0, Run(cfg, NewSession(s0), ops), k, i)
  {
    StartKeeps(s0);
    RunKeepsAll(s0, cfg, NewSession(s0), ops);
  }
}
