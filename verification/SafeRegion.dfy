/** What every step does to the SAFE region and to the keys that count as changed in the session. */
module SafeRegion {
  import opened Bytes
  import opened Rows
  import opened Index

  /** Where SAFE ends. */
  function SafeEnd(s: State): (line: nat)
    requires s.n <= |s.rows|
    ensures s.n <= line <= |s.rows|
  {
    Min(Max(s.safeLine, s.n), |s.rows|)
  }

  /** The versions parked in this session, out of reach of any reuse. */
  function SafeRows(s: State): (rows: seq<Row>)
    requires s.n <= |s.rows|
    ensures |rows| == SafeEnd(s) - s.n
  {
    s.rows[s.n..SafeEnd(s)]
  }

  /** Taking the first one to the end changes only the order. */
  lemma Rotated(a: seq<Row>, b: seq<Row>)
    requires a == [] ==> b == []
    requires a != [] ==> b == a[1..] + [a[0]]
    ensures multiset(b) == multiset(a)
  {
    if a != [] {
      assert a == [a[0]] + a[1..];
    }
  }

  /** An append to the records leaves SAFE as it is, and counts as no change. */
  lemma AppendKeepsSafe(cfg: Config, s: State, key: Key, val: Payload, flags: Flags, file: nat)
    requires Inv(s) && ConfigOk(cfg) && PayloadOk(val) && key !in s.table
    ensures var t := AppendNew(cfg, s, key, val, flags, file);
      t.n <= |t.rows| && multiset(SafeRows(t)) == multiset(SafeRows(s)) && t.chg == s.chg && t.safeLine == s.safeLine + 1
  {
    hide Tiled, Extents, SizesOf, RowsOk, TableOk, NewRow, NewFiles;
    var t := AppendNew(cfg, s, key, val, flags, file);
    var a, b := SafeRows(s), SafeRows(t);
    assert SafeEnd(t) == SafeEnd(s) + 1;
    if a != [] {
      assert b == a[1..] + [a[0]];
    }
    Rotated(a, b);
  }

  lemma TakenOut(a: seq<Row>, k: nat)
    requires k < |a|
    ensures multiset(a[k := a[0]][1..]) == multiset(a) - multiset{a[k]}
  {
    var c := a[k := a[0]];
    assert c == [a[0]] + c[1..];
    forall r | true ensures multiset(c[1..])[r] == (multiset(a) - multiset{a[k]})[r] {
      assert multiset(c)[r] == (multiset(a) - multiset{a[k]} + multiset{a[0]})[r];
      assert multiset(c)[r] == (multiset{a[0]} + multiset(c[1..]))[r];
    }
  }

  lemma SafeIs(s: State)
    requires s.n <= |s.rows|
    ensures SafeRows(s) == s.rows[s.n..SafeEnd(s)]
  {
  }

  lemma PulledOut(rows: seq<Row>, n: nat, line: nat, at: nat, back: Row)
    requires n <= at < line <= |rows|
    ensures rows[at := rows[n]][n := back][n + 1..line] == rows[n..line][at - n := rows[n..line][0]][1..]
    ensures rows[n..line][at - n] == rows[at]
  {
    var a, b := rows[at := rows[n]][n := back][n + 1..line], rows[n..line][at - n := rows[n..line][0]][1..];
    forall i | 0 <= i < line - n - 1 ensures a[i] == b[i] {
    }
  }

  lemma UndeleteFromSafe(s: State, key: Key, at: nat)
    requires s.n <= |s.rows| && s.n <= at < SafeEnd(s)
    ensures var t := UndeleteAt(s, key, at, true);
      t.n <= |t.rows| && multiset(SafeRows(t)) == multiset(SafeRows(s)) - multiset{s.rows[at]}
  {
    hide SafeRows;
    var line, t := SafeEnd(s), UndeleteAt(s, key, at, true);
    PulledOut(s.rows, s.n, line, at, s.rows[at].(ver := s.sync));
    TakenOut(s.rows[s.n..line], at - s.n);
    SafeIs(s);
    SafeIs(t);
  }

  lemma UndeleteFromBeyond(s: State, key: Key, at: nat)
    requires s.n <= |s.rows| && SafeEnd(s) <= at < |s.rows|
    ensures var t := UndeleteAt(s, key, at, true);
      t.n <= |t.rows| && multiset(SafeRows(t)) == multiset(SafeRows(s))
  {
    var a, b := SafeRows(s), SafeRows(UndeleteAt(s, key, at, true));
    if a != [] {
      assert b == a[1..] + [a[0]];
    }
    Rotated(a, b);
  }

  /** A version brought back under REVERT from SAFE leaves it, and its key no longer counts as changed; one from
      beyond leaves SAFE as it is, and its key does. Without REVERT nothing is safe any longer. */
  lemma UndeleteSafe(s: State, key: Key, at: nat, revert: bool)
    requires s.n <= at < |s.rows|
    ensures var t := UndeleteAt(s, key, at, revert); t.n <= |t.rows|
    ensures var t := UndeleteAt(s, key, at, revert);
      if !revert then SafeRows(t) == [] && t.chg == s.chg
      else if at < SafeEnd(s) then
        multiset(SafeRows(t)) == multiset(SafeRows(s)) - multiset{s.rows[at]} && t.chg == s.chg - {key} && t.safeLine == s.safeLine
      else multiset(SafeRows(t)) == multiset(SafeRows(s)) && t.chg == s.chg + {key}
  {
    if revert {
      if at < SafeEnd(s) {
        UndeleteFromSafe(s, key, at);
      } else {
        UndeleteFromBeyond(s, key, at);
      }
    }
  }

  predicate DeleteRefused(f: Flags, unlock: bool) {
    (f.readOnly || f.appendOnly || f.noDelete) && !unlock
  }

  lemma DeletedRows(s: State, key: Key, park: nat)
    requires key in s.table && s.table[key] < s.n <= park + 1 <= |s.rows|
    ensures var t := DeleteAt(s, key, park);
      && t.n == s.n - 1 && |t.rows| == |s.rows|
      && t.rows[park] == s.rows[s.table[key]].(ver := s.sync)
      && (park > t.n ==> t.rows[t.n] == s.rows[park])
      && (forall i :: s.n <= i < |s.rows| && i != park ==> t.rows[i] == s.rows[i])
  {
  }

  lemma DeletedSafe(s: State, key: Key, park: nat)
    requires s.n <= |s.rows| && s.n <= s.safeLine && key in s.table && s.table[key] < s.n
    requires park == s.n - 1 || park == SafeEnd(s) - 1
    ensures var t := DeleteAt(s, key, park); var gone := s.rows[s.table[key]].(ver := s.sync); var safe := SafeRows(s);
      && t.n <= |t.rows|
      && SafeRows(t) == if park >= s.n then [safe[|safe| - 1]] + safe[..|safe| - 1] + [gone] else [gone] + safe
  {
    DeletedRows(s, key, park);
    var t, safe := DeleteAt(s, key, park), SafeRows(s);
    assert forall i :: s.n <= i < SafeEnd(s) ==> s.rows[i] == safe[i - s.n];
  }

  /** A deleted version joins SAFE: in front, or at the end when its key had changed before under REVERT.
      A locked record is not deleted at all. */
  lemma DeleteSafe(s: State, key: Key, revert: bool, unlock: bool)
    requires Inv(s) && key in s.table && s.n <= s.safeLine
    ensures DeleteRefused(s.rows[s.table[key]].flags, unlock) <==> Delete(s, key, revert, unlock) == s
    ensures !DeleteRefused(s.rows[s.table[key]].flags, unlock) ==>
      var t := Delete(s, key, revert, unlock); var gone := s.rows[s.table[key]].(ver := s.sync); var safe := SafeRows(s);
      && t.n <= |t.rows| && t.n == s.n - 1 && t.chg == s.chg && t.safeLine == s.safeLine && t.sync == Next(s.sync)
      && SafeRows(t) == if revert && key in s.chg && safe != [] then [safe[|safe| - 1]] + safe[..|safe| - 1] + [gone]
                        else [gone] + safe
  {
    hide Tiled, Extents, SizesOf, RowsOk, SafeRows;
    if !DeleteRefused(s.rows[s.table[key]].flags, unlock) {
      DeletedSafe(s, key, if revert && key in s.chg then SafeEnd(s) - 1 else s.n - 1);
    }
  }

  /** An unwrite swaps two rows and takes the key off the list of changed ones; a record locked against writing
      is not swapped. */
  lemma UnwriteSafe(s: State, key: Key, at: nat)
    requires Inv(s) && key in s.table && key != "" && s.n <= at < |s.rows| && s.rows[at].key == key
    ensures var t := Unwrite(s, key, Some(at)); var row := s.table[key]; var f := s.rows[row].flags;
      if f.readOnly || f.appendOnly then t == s
      else
        && t.chg == s.chg - {key} && t.safeLine == s.safeLine && t.n == s.n && t.table == s.table && t.sync == Next(s.sync)
        && t.rows == s.rows[row := s.rows[at].(ver := s.sync, flags := f)][at := s.rows[row].(ver := s.sync)]
  {
    hide Tiled, Extents, SizesOf, RowsOk;
  }

  /** A rename touches one row and the table; the session goes on with the old name among the changed keys. */
  lemma RenameSafe(s: State, key: Key, newKey: Key)
    requires Inv(s) && key in s.table && newKey !in s.table
    ensures var t := Rename(s, key, newKey); var row := s.table[key];
      && t.chg == s.chg && t.safeLine == s.safeLine && t.n == s.n && t.files == s.files && t.sync == Next(s.sync)
      && t.rows == s.rows[row := s.rows[row].(key := newKey, ver := s.sync)]
  {
    hide Tiled, Extents, SizesOf, RowsOk;
  }

  /** The rows a write may not take over. */
  function ReserveEnd(cfg: Config, s: State): (line: nat)
    requires s.n <= |s.rows|
    ensures s.n <= line <= |s.rows|
  {
    Min(Max(s.safeLine, s.n + cfg.minSafe), |s.rows|)
  }

  lemma CarveFront(rows: seq<Row>, slot: Slot, line: nat)
    requires slot.Reuse? ==> line <= slot.row < |rows| && slot.keep <= rows[slot.row].rowSize
    requires slot.Reuse? && slot.ext.Some? ==> slot.row < slot.ext.value < |rows|
    requires line <= |rows|
    ensures |rows| <= |Carve(rows, slot)| && Carve(rows, slot)[..line] == rows[..line]
    ensures line <= Target(rows, slot) < |Carve(rows, slot)|
  {
  }

  lemma PlaceCarves(cfg: Config, s: State, slot: Slot, key: Key, val: Payload, flags: Flags)
    requires cfg.reservedRate >= 0.0
    requires slot.Reuse? ==> slot.row < |s.rows| && slot.keep <= s.rows[slot.row].rowSize
    requires slot.Reuse? && slot.ext.Some? ==> slot.ext.value < |s.rows|
    ensures var p := Place(cfg, s, slot, key, val, flags); p.c == Carve(s.rows, slot) && p.d == Target(s.rows, slot)
  {
  }

  lemma MovedOut(rows: seq<Row>, c: seq<Row>, d: nat, line: nat, n: nat, hole: nat, sync: nat, placed: Row)
    requires hole < n <= line <= |rows| <= |c| && line <= d < |c| && c[..line] == rows[..line]
    ensures hole < |c| && c[hole] == rows[hole]
    ensures |Shift(c, d, line, hole, c[hole].(ver := sync), placed)| == |c|
    ensures Shift(c, d, line, hole, c[hole].(ver := sync), placed)[n..line + 1] == rows[n..line] + [rows[hole].(ver := sync)]
  {
    assert c[hole] == c[..line][hole] == rows[hole];
    var t := Shift(c, d, line, hole, c[hole].(ver := sync), placed);
    forall i | n <= i < line ensures t[i] == rows[i] {
      assert c[i] == c[..line][i] == rows[i];
    }
  }

  lemma InsertedOut(rows: seq<Row>, c: seq<Row>, d: nat, line: nat, n: nat, placed: Row)
    requires n <= line <= |rows| <= |c| && line <= d < |c| && c[..line] == rows[..line]
    ensures |Shift(c, d, line, n, c[n], placed)| == |c|
    ensures multiset(Shift(c, d, line, n, c[n], placed)[n + 1..line + 1]) == multiset(rows[n..line])
  {
    var t := Shift(c, d, line, n, c[n], placed);
    forall i | n <= i < line ensures c[i] == rows[i] {
      assert c[i] == c[..line][i] == rows[i];
    }
    if n < line {
      assert t[n + 1..line + 1] == rows[n..line][1..] + [rows[n..line][0]];
    }
    Rotated(rows[n..line], t[n + 1..line + 1]);
  }

  lemma FirstMoved(cfg: Config, s: State, a: WriteArgs, slot: Slot)
    requires Inv(s) && WriteOk(cfg, s, a, slot) && a.revert && a.key !in s.chg && Kind(s, a) == Moved
    ensures var t := Write(cfg, s, a, slot);
      && t.n <= |t.rows| && t.chg == s.chg + {a.key}
      && SafeRows(t) == s.rows[s.n..ReserveEnd(cfg, s)] + [s.rows[s.table[a.key]].(ver := s.sync)]
  {
    hide Tiled, Extents, SizesOf, RowsOk, Place, Carve, Shift;
    var p := Place(cfg, s, slot, a.key, a.val, NewFlags(s, a));
    CarveFront(s.rows, slot, ReserveEnd(cfg, s));
    PlaceCarves(cfg, s, slot, a.key, a.val, NewFlags(s, a));
    MovedOut(s.rows, p.c, p.d, ReserveEnd(cfg, s), s.n, s.table[a.key], s.sync, p.row);
  }

  lemma FirstInserted(cfg: Config, s: State, a: WriteArgs, slot: Slot)
    requires Inv(s) && WriteOk(cfg, s, a, slot) && a.revert && a.key !in s.chg && a.key !in s.table
    ensures var t := InsertNew(cfg, s, a, slot);
      && t.n <= |t.rows| && t.chg == s.chg + {a.key}
      && multiset(SafeRows(t)) == multiset(s.rows[s.n..ReserveEnd(cfg, s)])
  {
    hide Inv, Place, Carve, Shift;
    var p := Place(cfg, s, slot, a.key, a.val, NewFlags(s, a));
    CarveFront(s.rows, slot, ReserveEnd(cfg, s));
    PlaceCarves(cfg, s, slot, a.key, a.val, NewFlags(s, a));
    InsertedOut(s.rows, p.c, p.d, ReserveEnd(cfg, s), s.n, p.row);
  }

  /** When a key changes for the first time under REVERT, all that was out of reach is safe from then on, and so is
      the version superseded; the key counts as changed. */
  lemma FirstChangeSafe(cfg: Config, s: State, a: WriteArgs, slot: Slot)
    requires Inv(s) && WriteOk(cfg, s, a, slot) && a.revert && a.key !in s.chg
    requires Kind(s, a) == Moved || Kind(s, a) == Inserted
    ensures var t := Write(cfg, s, a, slot); t.n <= |t.rows| && t.chg == s.chg + {a.key}
    ensures var t := Write(cfg, s, a, slot); var out := s.rows[s.n..ReserveEnd(cfg, s)];
      multiset(SafeRows(t)) == multiset(out)
        + (if a.key in s.table then multiset{s.rows[s.table[a.key]].(ver := s.sync)} else multiset{})
  {
    hide InsertNew, MoveAt, Place, Touch, SafeRows, ReserveEnd, Tiled, RowsOk, Extents, SizesOf;
    if Kind(s, a) == Moved {
      FirstMoved(cfg, s, a, slot);
    } else {
      FirstInserted(cfg, s, a, slot);
    }
  }

  /** All other writes leave the changed keys alone, and the safe line but for a plain insert, which moves it by one. */
  lemma OtherWritesSafe(cfg: Config, s: State, a: WriteArgs, slot: Slot)
    requires Inv(s) && WriteOk(cfg, s, a, slot)
    requires !(a.revert && a.key !in s.chg && (Kind(s, a) == Moved || Kind(s, a) == Inserted))
    ensures var t := Write(cfg, s, a, slot);
      && t.chg == s.chg
      && t.safeLine == s.safeLine + (if a.key !in s.table && !a.revert then 1 else 0)
  {
    hide Tiled, Extents, SizesOf, RowsOk, Place;
  }
}
