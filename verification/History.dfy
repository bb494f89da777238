/** What happens to stored versions: nothing below the line is ever reclaimed, and undoing is exact. */
module History {
  import opened Bytes
  import opened Rows
  import opened Index
  import opened Refine

  /** The versions a write gives up: the row it reuses and the empty row that takes the remainder. */
  function Discarded(rows: seq<Row>, slot: Slot): multiset<Version>
    requires slot.Reuse? ==> slot.row < |rows| && (slot.ext.Some? ==> slot.ext.value < |rows|)
  {
    if slot.Append? then multiset{}
    else multiset{VersionOf(rows[slot.row])}
         + (if slot.ext.Some? then multiset{VersionOf(rows[slot.ext.value])} else multiset{})
  }

  /** The unused part of a reused extent. */
  function Remainder(rows: seq<Row>, slot: Slot): multiset<Version>
    requires slot.Reuse? ==> slot.row < |rows|
  {
    if slot.Append? || slot.keep >= rows[slot.row].rowSize then multiset{}
    else
      var r := rows[slot.row];
      multiset{VersionOf(FreeRow(r.fileId, r.offset + slot.keep, r.rowSize - slot.keep))}
  }

  lemma ShiftVersions(c: seq<Row>, d: nat, line: nat, hole: nat, parked: Row, placed: Row)
    requires hole <= line <= d < |c| && VersionOf(parked) == VersionOf(c[hole])
    requires hole == line ==> parked == c[hole]
    ensures Versions(Shift(c, d, line, hole, parked, placed)) + multiset{VersionOf(c[d])}
         == Versions(c) + multiset{VersionOf(placed)}
  {
    var a := c[d := c[line]];
    var b := a[line := parked];
    VersionsSet(c, d, c[line]);
    VersionsSet(a, line, parked);
    VersionsSet(b, hole, placed);
    assert b[hole] == if hole == line then parked else c[hole];
    ChainEnds(Versions(c), Versions(a), Versions(b), Versions(b[hole := placed]), multiset{VersionOf(c[d])},
              multiset{VersionOf(c[line])}, multiset{VersionOf(parked)}, multiset{VersionOf(placed)});
  }

  lemma ChainEnds<T>(m: multiset<T>, a: multiset<T>, b: multiset<T>, z: multiset<T>,
                     gone: multiset<T>, x: multiset<T>, y: multiset<T>, more: multiset<T>)
    requires a + gone == m + x && b + x == a + y && z + y == b + more
    ensures z + gone == m + more
  {
    forall t | true ensures (z + gone)[t] == (m + more)[t] {
      assert (a + gone)[t] == (m + x)[t];
      assert (b + x)[t] == (a + y)[t];
      assert (z + y)[t] == (b + more)[t];
    }
  }

  /** What a slot takes from the index and what it leaves there balance out. */
  ghost predicate CarveBalances(rows: seq<Row>, slot: Slot)
    requires slot.Reuse? ==> slot.row < |rows| && slot.keep <= rows[slot.row].rowSize
    requires slot.Reuse? && slot.ext.Some? ==> slot.ext.value < |rows|
  {
    Versions(Carve(rows, slot)) + Discarded(rows, slot)
    == Versions(rows) + multiset{VersionOf(Carve(rows, slot)[Target(rows, slot)])} + Remainder(rows, slot)
  }

  lemma FreshBalances(rows: seq<Row>, slot: Slot)
    requires slot.Append?
    ensures CarveBalances(rows, slot)
  {
    var v := multiset{VersionOf(FreeRow(0, 0, 0))};
    VersionsPush(rows, FreeRow(0, 0, 0));
    assert Versions(Carve(rows, slot)) == Versions(rows) + v;
    assert Discarded(rows, slot) == multiset{} && Remainder(rows, slot) == multiset{};
  }

  lemma WholeBalances(rows: seq<Row>, slot: Slot)
    requires slot.Reuse? && slot.row < |rows| && slot.keep == rows[slot.row].rowSize && slot.ext.None?
    ensures CarveBalances(rows, slot)
  {
    var v := multiset{VersionOf(rows[slot.row])};
    assert Discarded(rows, slot) == v && Remainder(rows, slot) == multiset{};
  }

  lemma CutBalances(rows: seq<Row>, slot: Slot)
    requires slot.Reuse? && slot.row < |rows| && slot.keep < rows[slot.row].rowSize
    requires slot.ext.Some? ==> slot.ext.value < |rows| && slot.ext.value != slot.row
    ensures CarveBalances(rows, slot)
  {
    hide Versions, VersionsUpTo;
    var r := rows[slot.row];
    CutVersions(rows, slot.row, slot.ext, FreeRow(r.fileId, r.offset + slot.keep, r.rowSize - slot.keep),
                FreeRow(r.fileId, r.offset, slot.keep));
  }

  /** Carving trades the discarded versions for the kept part and the remainder. */
  lemma CarveVersions(rows: seq<Row>, slot: Slot)
    requires slot.Reuse? ==> slot.row < |rows| && slot.keep <= rows[slot.row].rowSize
    requires slot.Reuse? && slot.ext.Some? ==>
               slot.ext.value < |rows| && slot.ext.value != slot.row && slot.keep < rows[slot.row].rowSize
    ensures CarveBalances(rows, slot)
  {
    if slot.Append? {
      FreshBalances(rows, slot);
    } else if slot.keep < rows[slot.row].rowSize {
      CutBalances(rows, slot);
    } else {
      WholeBalances(rows, slot);
    }
  }

  lemma CutVersions(rows: seq<Row>, row: nat, ext: Option<nat>, rest: Row, kept: Row)
    requires row < |rows| && (ext.Some? ==> ext.value < |rows| && ext.value != row)
    ensures var more := if ext.Some? then rows[ext.value := rest] else rows + [rest];
      var lost := if ext.Some? then multiset{VersionOf(rows[ext.value])} else multiset{};
      Versions(more[row := kept]) + (multiset{VersionOf(rows[row])} + lost)
      == Versions(rows) + multiset{VersionOf(kept)} + multiset{VersionOf(rest)}
  {
    var more := if ext.Some? then rows[ext.value := rest] else rows + [rest];
    var lost := if ext.Some? then multiset{VersionOf(rows[ext.value])} else multiset{};
    if ext.Some? {
      VersionsSet(rows, ext.value, rest);
    } else {
      VersionsPush(rows, rest);
    }
    VersionsSet(more, row, kept);
    Balance(Versions(rows), Versions(more), Versions(more[row := kept]), lost, multiset{VersionOf(rest)},
            multiset{VersionOf(rows[row])}, multiset{VersionOf(kept)});
  }

  lemma Balance<T>(m: multiset<T>, a: multiset<T>, z: multiset<T>, lost: multiset<T>, rest: multiset<T>,
                   row: multiset<T>, kept: multiset<T>)
    requires a + lost == m + rest && z + row == a + kept
    ensures z + (row + lost) == m + kept + rest
  {
    forall t | true ensures (z + (row + lost))[t] == (m + kept + rest)[t] {
      assert (a + lost)[t] == (m + rest)[t];
      assert (z + row)[t] == (a + kept)[t];
    }
  }

  lemma Join<T>(c: multiset<T>, z: multiset<T>, m: multiset<T>, lost: multiset<T>, kept: multiset<T>,
                rest: multiset<T>, placed: multiset<T>)
    requires z + kept == c + placed && c + lost == m + kept + rest
    ensures z + lost == m + placed + rest
  {
    forall t | true ensures (z + lost)[t] == (m + placed + rest)[t] {
      assert (z + kept)[t] == (c + placed)[t];
      assert (c + lost)[t] == (m + kept + rest)[t];
    }
  }

  /** A placing on its way in, with the versions it gives up and the remainder it leaves. */
  ghost predicate Trades(rows: seq<Row>, p: Placing, lost: multiset<Version>, rest: multiset<Version>) {
    && p.d < |p.c|
    && Versions(p.c) + lost == Versions(rows) + multiset{VersionOf(p.c[p.d])} + rest
  }

  lemma MoveConserves(s: State, p: Placing, key: Key, line: nat, lost: multiset<Version>, rest: multiset<Version>)
    requires key in s.table && s.table[key] < line <= p.d && Trades(s.rows, p, lost, rest)
    ensures Versions(MoveAt(s, p, key, line).rows) + lost == Versions(s.rows) + multiset{VersionOf(p.row)} + rest
  {
    var hole := s.table[key];
    ShiftVersions(p.c, p.d, line, hole, p.c[hole].(ver := s.sync), p.row);
    Join(Versions(p.c), Versions(MoveAt(s, p, key, line).rows), Versions(s.rows),
         lost, multiset{VersionOf(p.c[p.d])}, rest, multiset{VersionOf(p.row)});
  }

  lemma InsertConserves(s: State, p: Placing, key: Key, line: nat, lost: multiset<Version>, rest: multiset<Version>)
    requires s.n <= line <= p.d && Trades(s.rows, p, lost, rest)
    ensures Versions(InsertAt(s, p, key, line).rows) + lost == Versions(s.rows) + multiset{VersionOf(p.row)} + rest
  {
    ShiftVersions(p.c, p.d, line, s.n, p.c[s.n], p.row);
    Join(Versions(p.c), Versions(InsertAt(s, p, key, line).rows), Versions(s.rows),
         lost, multiset{VersionOf(p.c[p.d])}, rest, multiset{VersionOf(p.row)});
  }

  lemma PlaceTrades(cfg: Config, s: State, a: WriteArgs, slot: Slot)
    requires Inv(s) && WriteOk(cfg, s, a, slot)
    ensures Trades(s.rows, Place(cfg, s, slot, a.key, a.val, NewFlags(s, a)), Discarded(s.rows, slot), Remainder(s.rows, slot))
    ensures Line(cfg, s, a.revert) <= Target(s.rows, slot)
  {
    CarveVersions(s.rows, slot);
  }

  lemma MovedConserves(cfg: Config, s: State, a: WriteArgs, slot: Slot)
    requires Inv(s) && WriteOk(cfg, s, a, slot) && Kind(s, a) == Moved
    ensures var t := Write(cfg, s, a, slot);
      var live := Place(cfg, s, slot, a.key, a.val, NewFlags(s, a)).row;
      Versions(t.rows) + Discarded(s.rows, slot) == Versions(s.rows) + multiset{VersionOf(live)} + Remainder(s.rows, slot)
  {
    hide Versions, Tiled, Extents, RowsOk, SizesOf, NewRow, NewFiles, Discarded, Remainder, Carve, Shift;
    var line := Line(cfg, s, a.revert);
    PlaceTrades(cfg, s, a, slot);
    MoveConserves(Touch(s, a.key, line, a.revert), Place(cfg, s, slot, a.key, a.val, NewFlags(s, a)), a.key, line,
                  Discarded(s.rows, slot), Remainder(s.rows, slot));
  }

  lemma InsertedConserves(cfg: Config, s: State, a: WriteArgs, slot: Slot)
    requires Inv(s) && WriteOk(cfg, s, a, slot)
    ensures var t := InsertNew(cfg, s, a, slot);
      var live := Place(cfg, s, slot, a.key, a.val, NewFlags(s, a)).row;
      Versions(t.rows) + Discarded(s.rows, slot) == Versions(s.rows) + multiset{VersionOf(live)} + Remainder(s.rows, slot)
  {
    hide Versions, Tiled, Extents, RowsOk, SizesOf, NewRow, NewFiles, Discarded, Remainder, Carve, Shift;
    var line := Line(cfg, s, a.revert);
    PlaceTrades(cfg, s, a, slot);
    InsertConserves(Touch(s, a.key, line, a.revert), Place(cfg, s, slot, a.key, a.val, NewFlags(s, a)), a.key, line,
                    Discarded(s.rows, slot), Remainder(s.rows, slot));
  }

  /** Conservation: a write that needs a row gives up exactly the discarded versions and gains exactly the
      new one and the remainder; every other version, the superseded live one included, is still stored. */
  lemma WriteConserves(cfg: Config, s: State, a: WriteArgs, slot: Slot)
    requires Inv(s) && WriteOk(cfg, s, a, slot) && (Kind(s, a) == Moved || Kind(s, a) == Inserted)
    ensures var t := Write(cfg, s, a, slot);
      var live := Place(cfg, s, slot, a.key, a.val, NewFlags(s, a)).row;
      Versions(t.rows) + Discarded(s.rows, slot) == Versions(s.rows) + multiset{VersionOf(live)} + Remainder(s.rows, slot)
  {
    hide Versions, Discarded, Remainder, Place, Tiled, Extents, RowsOk, SizesOf;
    if Kind(s, a) == Moved {
      MovedConserves(cfg, s, a, slot);
    } else {
      InsertedConserves(cfg, s, a, slot);
    }
  }

  /** Conservation for f_append: the new version joins and nothing is given up. */
  lemma AppendConserves(cfg: Config, s: State, key: Key, val: Payload, flags: Flags, file: nat)
    requires Inv(s) && ConfigOk(cfg) && PayloadOk(val)
    ensures Versions(AppendNew(cfg, s, key, val, flags, file).rows)
         == Versions(s.rows) + multiset{VersionOf(Place(cfg, s, Append(file), key, val, flags).row)}
  {
    hide Versions, Tiled, Extents, RowsOk, SizesOf, NewRow, NewFiles;
    var p := Place(cfg, s, Append(file), key, val, flags);
    FreshBalances(s.rows, Append(file));
    InsertConserves(s, p, key, Clamp(s), multiset{}, multiset{});
    NothingMore(Versions(AppendNew(cfg, s, key, val, flags, file).rows));
    NothingMore(Versions(s.rows) + multiset{VersionOf(p.row)});
  }

  // ---- where the surviving versions are found ----

  /** A row of the old index found again among the parked rows, value and all. */
  ghost predicate ParkedAs(s: State, i: nat, t: State, j: nat)
    requires i < |s.rows|
  {
    && t.n <= j < |t.rows|
    && VersionOf(t.rows[j]) == VersionOf(s.rows[i])
    && ValueOf(t.files, t.rows[j]) == ValueOf(s.files, s.rows[i])
  }

  /** The rows a moved version leaves where they are, and the row its old version is parked in. */
  lemma MoveLayout(s: State, p: Placing, key: Key, val: Payload, flags: Flags, line: nat)
    requires Inv(s) && PlacingOk(s, p, key, val, flags, line) && key in s.table
    ensures var t := MoveAt(s, p, key, line);
      && |t.rows| == |p.c| && t.n == s.n
      && (forall i :: 0 <= i < line && i != s.table[key] ==> t.rows[i] == s.rows[i])
      && (forall i :: 0 <= i < line ==> ValueOf(t.files, s.rows[i]) == ValueOf(s.files, s.rows[i]))
      && t.rows[line] == s.rows[s.table[key]].(ver := s.sync)
  {
    forall i | 0 <= i < line ensures ValueOf(p.files, s.rows[i]) == ValueOf(s.files, s.rows[i]) {
      assert p.c[i] == s.rows[i];
    }
  }

  /** The rows an insert leaves where they are, and the row the first SAFE row moves to. */
  lemma InsertLayout(s: State, p: Placing, key: Key, val: Payload, flags: Flags, line: nat)
    requires Inv(s) && PlacingOk(s, p, key, val, flags, line) && key !in s.table
    ensures var t := InsertAt(s, p, key, line);
      && |t.rows| == |p.c| && t.n == s.n + 1
      && (forall i :: 0 <= i < line && i != s.n ==> t.rows[i] == s.rows[i])
      && (forall i :: 0 <= i < line ==> ValueOf(t.files, s.rows[i]) == ValueOf(s.files, s.rows[i]))
      && t.rows[s.n] == p.row
      && (s.n < line ==> t.rows[line] == s.rows[s.n])
  {
    forall i | 0 <= i < line ensures ValueOf(p.files, s.rows[i]) == ValueOf(s.files, s.rows[i]) {
      assert p.c[i] == s.rows[i];
    }
  }

  lemma InPlaceKeeps(s: State, key: Key, val: Payload, flags: Flags, i: nat)
    requires Inv(s) && key in s.table && Fits(s.rows[s.table[key]], val) && s.n <= i < |s.rows|
    ensures ParkedAs(s, i, Overwrite(s, key, val, flags), i)
  {
    if val.Stored? {
      StoreFrame(s, s.table[key], val.data, i);
    }
  }

  lemma MoveKeeps(s: State, p: Placing, key: Key, val: Payload, flags: Flags, line: nat, i: nat)
    requires Inv(s) && PlacingOk(s, p, key, val, flags, line) && key in s.table
    ensures s.n <= i < line ==> ParkedAs(s, i, MoveAt(s, p, key, line), i)
    ensures ParkedAs(s, s.table[key], MoveAt(s, p, key, line), line)
  {
    MoveLayout(s, p, key, val, flags, line);
  }

  lemma InsertKeeps(s: State, p: Placing, key: Key, val: Payload, flags: Flags, line: nat, i: nat)
    requires Inv(s) && PlacingOk(s, p, key, val, flags, line) && key !in s.table && s.n <= i < line
    ensures ParkedAs(s, i, InsertAt(s, p, key, line), if i == s.n then line else i)
  {
    InsertLayout(s, p, key, val, flags, line);
  }

  /** The reserve: under REVERT every version parked in this session, and every one of the first `minSafe` parked
      ones, survives a write, wherever it lands. */
  lemma ReserveSurvives(cfg: Config, s: State, a: WriteArgs, slot: Slot, i: nat) returns (j: nat)
    requires Inv(s) && WriteOk(cfg, s, a, slot) && a.revert
    requires s.n <= i < Min(Max(s.safeLine, s.n + cfg.minSafe), |s.rows|)
    ensures ParkedAs(s, i, Write(cfg, s, a, slot), j)
  {
    j := i;
    match Kind(s, a)
    case Refused =>
    case Unchanged =>
    case FlagsOnly =>
    case InPlace => InPlaceKeeps(s, a.key, a.val, NewFlags(s, a), i);
    case Moved => MovedSurvives(cfg, s, a, slot, i);
    case Inserted => j := InsertedSurvives(cfg, s, a, slot, i);
  }

  lemma MovedSurvives(cfg: Config, s: State, a: WriteArgs, slot: Slot, i: nat)
    requires Inv(s) && WriteOk(cfg, s, a, slot) && Kind(s, a) == Moved
    ensures s.n <= i < Line(cfg, s, a.revert) ==> ParkedAs(s, i, Write(cfg, s, a, slot), i)
    ensures ParkedAs(s, s.table[a.key], Write(cfg, s, a, slot), Line(cfg, s, a.revert))
  {
    hide RowsOk, Tiled, PlacingOk, ValueOf, Place, Extents, SizesOf;
    var line := Line(cfg, s, a.revert);
    PlaceOkTouched(cfg, s, a, slot);
    MoveKeeps(Touch(s, a.key, line, a.revert), Place(cfg, s, slot, a.key, a.val, NewFlags(s, a)),
              a.key, a.val, NewFlags(s, a), line, i);
  }

  lemma InsertedSurvives(cfg: Config, s: State, a: WriteArgs, slot: Slot, i: nat) returns (j: nat)
    requires Inv(s) && WriteOk(cfg, s, a, slot) && a.key !in s.table && s.n <= i < Line(cfg, s, a.revert)
    ensures ParkedAs(s, i, InsertNew(cfg, s, a, slot), j)
  {
    var line := Line(cfg, s, a.revert);
    PlaceOkTouched(cfg, s, a, slot);
    InsertKeeps(Touch(s, a.key, line, a.revert), Place(cfg, s, slot, a.key, a.val, NewFlags(s, a)),
                a.key, a.val, NewFlags(s, a), line, i);
    j := if i == s.n then line else i;
  }

  /** The version a write supersedes is parked at the line, readable as before. */
  lemma SupersededSurvives(cfg: Config, s: State, a: WriteArgs, slot: Slot)
    requires Inv(s) && WriteOk(cfg, s, a, slot) && Kind(s, a) == Moved
    ensures ParkedAs(s, s.table[a.key], Write(cfg, s, a, slot), Line(cfg, s, a.revert))
  {
    MovedSurvives(cfg, s, a, slot, 0);
  }

  // ---- undoing ----

  /** When undoing a delete finds the version just deleted. */
  predicate UndoesDelete(s: State, key: Key, revert: bool)
    requires s.n <= |s.rows|
  {
    revert && key in s.chg ==> forall i :: s.n <= i < Clamp(s) ==> s.rows[i].key != key
  }

  lemma DeletedLayout(s: State, key: Key, revert: bool)
    requires Inv(s) && key in s.table
    ensures var park := ParkAt(s, key, revert); var d := DeleteAt(s, key, park);
      && s.n - 1 == d.n <= park < |d.rows| == |s.rows|
      && d.rows[park] == s.rows[s.table[key]].(ver := s.sync)
      && (park > d.n ==> d.rows[d.n] == s.rows[park])
      && (forall i :: s.n <= i < |s.rows| && i != park ==> d.rows[i] == s.rows[i])
  {
  }

  /** After a delete the first parked row of the key is the deleted one exactly when none is in the way. */
  lemma DeletedIsFirst(s: State, key: Key, revert: bool)
    requires Inv(s) && key in s.table
    ensures var park := ParkAt(s, key, revert); var d := DeleteAt(s, key, park);
      && d.n <= |d.rows| && (FirstParked(d.rows, d.n, key) == Some(park) <==> UndoesDelete(s, key, revert))
  {
    var park := ParkAt(s, key, revert);
    var d := DeleteAt(s, key, park);
    DeletedLayout(s, key, revert);
    FirstParkedIs(d.rows, d.n, key);
    if UndoesDelete(s, key, revert) {
      FirstParkedAt(d.rows, d.n, key, park);
    } else {
      var i :| s.n <= i < Clamp(s) && s.rows[i].key == key;
      assert d.rows[if i == park then d.n else i] == s.rows[i];
    }
  }

  lemma UndeleteFirst(d: State, key: Key, at: nat, revert: bool)
    requires Inv(d) && key !in d.table && key != "" && FirstParked(d.rows, d.n, key) == Some(at)
    ensures d.n <= at < |d.rows| && Undelete(d, key, None, revert) == UndeleteAt(d, key, at, revert)
  {
    FirstParkedIs(d.rows, d.n, key);
  }

  /** f_delete then f_undelete without a row: when no version of the key was parked earlier in the session,
      the map, the extent of the key and all of the history come back. */
  lemma DeleteThenUndelete(s: State, key: Key, revert: bool, unlock: bool)
    requires Inv(s) && key in s.table && key != "" && UndoesDelete(s, key, revert)
    requires unlock || !DeleteLocked(s.rows[s.table[key]].flags)
    ensures Inv(Delete(s, key, revert, unlock))
    ensures var t := Undelete(Delete(s, key, revert, unlock), key, None, revert);
      && Inv(t) && Abs(t) == Abs(s) && t.n == s.n && Permuted(s, t)
      && VersionOf(t.rows[t.table[key]]) == VersionOf(s.rows[s.table[key]])
  {
    var park := ParkAt(s, key, revert);
    var d := DeleteAt(s, key, park);
    DeleteAtRefines(s, key, park);
    DeletedIsFirst(s, key, revert);
    DeletedLayout(s, key, revert);
    UndeleteFirst(d, key, park, revert);
    RestoreFrom(s, d, key, park, revert);
    RestoreRows(s, d, key, park, revert);
  }

  lemma RestoreRows(s: State, d: State, key: Key, park: nat, revert: bool)
    requires Permuted(s, d) && key in s.table && s.table[key] < |s.rows| && d.n <= park < |d.rows|
    requires d.rows[park] == s.rows[s.table[key]].(ver := s.sync)
    ensures var t := UndeleteAt(d, key, park, revert);
      Permuted(s, t) && t.n == d.n + 1 && key in t.table && t.table[key] < |t.rows|
      && VersionOf(t.rows[t.table[key]]) == VersionOf(s.rows[s.table[key]])
  {
    UndeletePermutes(d, key, park, revert);
  }

  /** Restoring the row that holds the deleted version puts the deleted entry back. */
  lemma RestoreFrom(s: State, d: State, key: Key, park: nat, revert: bool)
    requires Inv(s) && Inv(d) && key in s.table && key !in d.table && d.n <= park < |d.rows| && d.files == s.files
    requires Abs(d) == Abs(s) - {key}
    requires d.rows[park] == s.rows[s.table[key]].(ver := s.sync)
    ensures var t := UndeleteAt(d, key, park, revert); Inv(t) && Abs(t) == Abs(s)
  {
    UndeleteInv(d, key, park, revert);
    RestoredMap(Abs(s), key, EntryOf(d.files, d.rows[park]));
  }

  /** The version in the way of an undo, when there is one: the one at the end of SAFE, which a delete moves to the
      front, or else the first one. */
  function InTheWay(s: State, key: Key): Option<nat>
    requires s.n <= |s.rows|
  {
    if s.n < Clamp(s) && s.rows[Clamp(s) - 1].key == key then Some(Clamp(s) - 1) else FirstParked(s.rows, s.n, key)
  }

  lemma FoundInstead(s: State, key: Key)
    requires Inv(s) && key in s.table && !UndoesDelete(s, key, true)
    ensures InTheWay(s, key).Some? && s.n <= InTheWay(s, key).value < Clamp(s)
    ensures var d := DeleteAt(s, key, ParkAt(s, key, true)); var at := FirstParked(d.rows, d.n, key);
      && d.n <= |d.rows| && at.Some? && at.value < |d.rows|
      && d.rows[at.value] == s.rows[InTheWay(s, key).value] && at != Some(ParkAt(s, key, true))
  {
    hide FirstParked, RowsOk, Tiled, Extents, SizesOf;
    var park, x := ParkAt(s, key, true), InTheWay(s, key);
    var d := DeleteAt(s, key, park);
    DeletedLayout(s, key, true);
    FirstParkedIs(s.rows, s.n, key);
    var i :| s.n <= i < Clamp(s) && s.rows[i].key == key;
    FirstParkedAt(d.rows, d.n, key, if x.value == park then d.n else x.value);
  }

  /** The version in the way is the live one again: two rows are alike only if they own no bytes. */
  predicate SameInTheWay(s: State, key: Key)
    requires s.n <= |s.rows| && key in s.table && s.table[key] < |s.rows|
  {
    var x := InTheWay(s, key);
    s.rows[s.table[key]].rowSize == 0 && x.Some? && x.value < |s.rows|
    && VersionOf(s.rows[x.value]) == VersionOf(s.rows[s.table[key]])
  }

  lemma ApartInTheWay(s: State, key: Key)
    requires Inv(s) && key in s.table && InTheWay(s, key).Some? && s.n <= InTheWay(s, key).value < |s.rows|
    ensures VersionOf(s.rows[InTheWay(s, key).value]) == VersionOf(s.rows[s.table[key]]) <==> SameInTheWay(s, key)
  {
    hide InTheWay, RowsOk;
    var x, row := InTheWay(s, key).value, s.table[key];
    if s.rows[x].rowSize > 0 && s.rows[row].rowSize > 0 {
      RowsApart(s.rows, SizesOf(s.files), x, row);
    }
  }

  /** f_delete then f_undelete without a row, for every record: the undo finds the row of the version just deleted if
      and only if none of the key was parked earlier in the session; the version that comes back reads like the deleted
      one if and only if that is so, or the value sits in the row itself and the version in the way is the same. */
  lemma DeleteThenUndeleteExactly(s: State, key: Key, revert: bool)
    requires Inv(s) && key in s.table && key != ""
    ensures Inv(Delete(s, key, revert, true))
    ensures var d := Delete(s, key, revert, true); var t := Undelete(d, key, None, revert);
      && d.n <= |d.rows| && key in t.table && t.table[key] < |t.rows|
      && (FirstParked(d.rows, d.n, key) == Some(ParkAt(s, key, revert)) <==> UndoesDelete(s, key, revert))
      && (VersionOf(t.rows[t.table[key]]) == VersionOf(s.rows[s.table[key]])
          <==> UndoesDelete(s, key, revert) || SameInTheWay(s, key))
  {
    hide RowsOk, Tiled, Extents, SizesOf, FirstParked;
    var park := ParkAt(s, key, revert);
    var d := DeleteAt(s, key, park);
    DeleteRefines(s, key, revert, true);
    DeletedIsFirst(s, key, revert);
    DeletedLayout(s, key, revert);
    FirstParkedIs(d.rows, d.n, key);
    if !UndoesDelete(s, key, revert) {
      FoundInstead(s, key);
      ApartInTheWay(s, key);
    }
    var at := FirstParked(d.rows, d.n, key).value;
    UndeletePermutes(d, key, at, revert);
  }

  lemma RestoredMap(m: map<Key, Entry>, key: Key, e: Entry)
    requires key in m && m[key] == e
    ensures (m - {key})[key := e] == m
  {
  }

  lemma UnwriteLayout(s: State, key: Key, at: nat)
    requires Inv(s) && key in s.table && FirstParked(s.rows, s.n, key) == Some(at)
    ensures s.n <= at < |s.rows| && s.rows[at].key == key
    ensures var u := UnwriteAt(s, key, at);
      && FirstParked(u.rows, u.n, key) == Some(at)
      && u.rows[at] == s.rows[s.table[key]].(ver := s.sync)
      && u.rows[s.table[key]] == s.rows[at].(ver := s.sync, flags := s.rows[s.table[key]].flags)
      && (forall i :: 0 <= i < |s.rows| && i != at && i != s.table[key] ==> u.rows[i] == s.rows[i])
  {
    FirstParkedIs(s.rows, s.n, key);
    var u := UnwriteAt(s, key, at);
    assert forall i :: s.n <= i < at ==> u.rows[i] == s.rows[i];
    FirstParkedAt(u.rows, u.n, key, at);
  }

  lemma UnwriteAtTwice(s: State, key: Key, at: nat)
    requires Inv(s) && key in s.table && FirstParked(s.rows, s.n, key) == Some(at) && s.n <= at < |s.rows|
    requires s.rows[at].key == key
    ensures var t := UnwriteAt(UnwriteAt(s, key, at), key, at);
      && t.n == s.n && t.table == s.table && |t.rows| == |s.rows|
      && (forall i :: 0 <= i < |s.rows| ==> VersionOf(t.rows[i]) == VersionOf(s.rows[i]))
  {
    UnwriteLayout(s, key, at);
  }

  lemma UnwriteAtTwiceAbs(s: State, key: Key, at: nat)
    requires Inv(s) && key in s.table && s.n <= at < |s.rows| && s.rows[at].key == key
    ensures Inv(UnwriteAt(s, key, at)) && UnwriteAt(s, key, at).rows[at].key == key
    ensures var t := UnwriteAt(UnwriteAt(s, key, at), key, at); Inv(t) && Abs(t) == Abs(s)
  {
    var u := UnwriteAt(s, key, at);
    UnwriteInv(s, key, at);
    assert u.rows[at] == s.rows[s.table[key]].(ver := s.sync);
    UnwriteInv(u, key, at);
    RestoredTwice(Abs(s), key, Abs(u)[key], Entry(ValueOf(u.files, u.rows[at]), Abs(u)[key].flags));
  }

  lemma RestoredTwice(m: map<Key, Entry>, key: Key, e: Entry, f: Entry)
    requires key in m && m[key] == f
    ensures m[key := e][key := f] == m
  {
  }

  lemma UnwriteFirst(s: State, key: Key)
    requires Inv(s) && key in s.table && key != "" && !WriteLocked(s.rows[s.table[key]].flags)
    ensures var at := FirstParked(s.rows, s.n, key);
      && (at.None? ==> Unwrite(s, key, None) == s)
      && (at.Some? ==> s.n <= at.value < |s.rows| && s.rows[at.value].key == key
                       && Unwrite(s, key, None) == UnwriteAt(s, key, at.value))
  {
    FirstParkedIs(s.rows, s.n, key);
  }

  /** f_unwrite twice without a row: the live and the parked version are back where they were. */
  lemma UnwriteTwice(s: State, key: Key)
    requires Inv(s) && key in s.table && key != "" && !WriteLocked(s.rows[s.table[key]].flags)
    ensures Inv(Unwrite(s, key, None))
    ensures var t := Unwrite(Unwrite(s, key, None), key, None);
      && Inv(t) && Abs(t) == Abs(s) && t.n == s.n && t.table == s.table && |t.rows| == |s.rows|
      && (forall i :: 0 <= i < |s.rows| ==> VersionOf(t.rows[i]) == VersionOf(s.rows[i]))
  {
    var at := FirstParked(s.rows, s.n, key);
    UnwriteFirst(s, key);
    if at.Some? {
      UnwriteInv(s, key, at.value);
      UnwriteAtTwice(s, key, at.value);
      UnwriteAtTwiceAbs(s, key, at.value);
      UnwriteLayout(s, key, at.value);
      UnwriteFirst(UnwriteAt(s, key, at.value), key);
    }
  }
}
