/** recycle as a whole: what the records, the history and the files look like afterwards. */
module Space {
  import opened Rows
  import opened Index
  import opened Refine
  import opened Runs
  import opened Recycle

  /** Only released space, which has no key, is stored with length 0. */
  ghost predicate Filled(s: State) {
    s.n <= |s.rows| && forall i :: 0 <= i < |s.rows| && s.rows[i].rowSize > 0 && s.rows[i].valSize == 0 ==>
      i >= s.n && s.rows[i].key == ""
  }

  lemma FitsRead(files: Files, less: Files, r: Row, more: Row)
    requires CutShort(files, less) && r.fileId in less && r.offset + r.rowSize <= |less[r.fileId]|
    requires r.valSize <= r.rowSize && (r.rowSize > 0 ==> r.valSize > 0)
    requires more == r.(rowSize := more.rowSize) && (r.rowSize == 0 <==> more.rowSize == 0)
    ensures EntryOf(less, more) == EntryOf(files, r)
  {
    var store := files[r.fileId];
    var m := |less[r.fileId]|;
    assert less[r.fileId] == store[..m];
    assert store[..m][r.offset..r.offset + r.valSize] == store[r.offset..r.offset + r.valSize];
  }

  /** The record of one key, read from the shortened files. */
  lemma LiveRead(s: State, t: State, i: nat)
    requires s.n <= |s.rows| && RowsOk(s.rows) && Filled(s) && t.n == s.n <= |t.rows| && i < s.n
    requires CutShort(s.files, t.files) && Tiled(Extents(t.rows), SizesOf(t.files))
    requires t.rows[i] == s.rows[i].(rowSize := t.rows[i].rowSize) && (s.rows[i].rowSize == 0 ==> t.rows[i].rowSize == 0)
    requires t.rows[i].rowSize >= s.rows[i].rowSize
    ensures EntryOf(t.files, t.rows[i]) == EntryOf(s.files, s.rows[i])
  {
    if t.rows[i].rowSize > 0 {
      ExtentsHas(t.rows, i);
      assert Inside(ExtentOf(t.rows[i]), SizesOf(t.files));
      FitsRead(s.files, t.files, s.rows[i], t.rows[i]);
    }
  }

  /** Records kept and possibly grown, files possibly cut short: every value reads as before. */
  lemma LiveReads(s: State, t: State)
    requires Inv(s) && Filled(s) && t.n == s.n && t.table == s.table && t.n <= |t.rows|
    requires CutShort(s.files, t.files) && Tiled(Extents(t.rows), SizesOf(t.files)) && RowsOk(t.rows)
    requires Grown(s.rows[..s.n], t.rows[..t.n])
    ensures Inv(t) && Abs(t) == Abs(s)
  {
    hide Tiled, Extents, SizesOf, EntryOf, RowsOk, CutShort, Filled;
    GrownRows(s.rows, t.rows, s.n);
    forall i: nat | i < s.n ensures EntryOf(t.files, t.rows[i]) == EntryOf(s.files, s.rows[i]) {
      LiveRead(s, t, i);
    }
    assert Inv(t);
    SameEntries(s, t);
  }

  lemma GrownRows(a: seq<Row>, b: seq<Row>, n: nat)
    requires n <= |a| && n <= |b| && Grown(a[..n], b[..n])
    ensures forall i :: 0 <= i < n ==> b[i] == a[i].(rowSize := b[i].rowSize) && b[i].rowSize >= a[i].rowSize
                                       && (a[i].rowSize == 0 ==> b[i].rowSize == 0)
  {
    assert forall i :: 0 <= i < n ==> a[..n][i] == a[i] && b[..n][i] == b[i];
  }

  lemma SameEntries(s: State, t: State)
    requires Inv(s) && Inv(t) && t.n == s.n && t.table == s.table
    requires forall i: nat :: i < s.n ==> EntryOf(t.files, t.rows[i]) == EntryOf(s.files, s.rows[i])
    ensures Abs(t) == Abs(s)
  {
    hide Tiled, Extents, SizesOf, EntryOf, RowsOk;
  }

  /** What recycle promises: the same records and values, tiled files, no more rows than before. */
  ghost predicate Kept(s: State, t: State) {
    Inv(s) && Inv(t) && Abs(t) == Abs(s) && t.n == s.n && |t.rows| <= |s.rows| && Filled(t)
  }

  lemma SplitExtents(rows: seq<Row>, n: nat)
    requires n <= |rows|
    ensures Extents(rows) == Extents(rows[..n]) + Extents(rows[n..])
  {
    ExtentsConcat(rows[..n], rows[n..]);
    assert rows == rows[..n] + rows[n..];
  }

  /** Nothing dead reaches the end of its file, and none is without bytes. */
  ghost predicate NoLoss(rows: seq<Row>, n: nat, files: Files)
    requires n <= |rows|
  {
    forall i :: n <= i < |rows| ==> rows[i].rowSize > 0 && rows[i].fileId in files
                                    && rows[i].offset + rows[i].rowSize < |files[rows[i].fileId]|
  }

  predicate DeadFine(r: Row) {
    (r.rowSize > 0 ==> r.valSize <= r.rowSize) && (r.valSize == 0 ==> r.rowSize == 0 || r.key == "")
  }

  /** Grown records in front of sound dead rows make a sound index again. */
  lemma Reassembled(s: State, t: State, grown: seq<Row>, dead: seq<Row>)
    requires Inv(s) && Filled(s) && t.n == s.n && t.table == s.table && t.rows == grown + dead
    requires Grown(s.rows[..s.n], grown) && (forall r :: r in dead ==> DeadFine(r))
    requires CutShort(s.files, t.files) && Tiled(Extents(t.rows), SizesOf(t.files))
    ensures Inv(t) && Abs(t) == Abs(s) && Filled(t)
  {
    hide Tiled, Extents, SizesOf;
    forall i | 0 <= i < |t.rows|
      ensures if i < s.n then t.rows[i] == s.rows[i].(rowSize := t.rows[i].rowSize) && t.rows[i].rowSize >= s.rows[i].rowSize
                              && (s.rows[i].rowSize == 0 ==> t.rows[i].rowSize == 0)
              else DeadFine(t.rows[i])
    {
      if i < s.n {
        assert t.rows[i] == grown[i] && s.rows[..s.n][i] == s.rows[i];
      } else {
        assert t.rows[i] == dead[i - s.n] && dead[i - s.n] in dead;
      }
    }
    assert t.rows[..t.n] == grown;
    LiveReads(s, t);
  }

  lemma DeadRowsFine(s: State, kept: seq<Row>)
    requires Inv(s) && Filled(s) && (forall r :: r in kept ==> r in s.rows[s.n..])
    ensures forall r :: r in kept ==> DeadFine(r)
  {
    forall r | r in kept ensures DeadFine(r) {
      var j :| 0 <= j < |s.rows[s.n..]| && s.rows[s.n..][j] == r;
      assert s.rows[s.n + j] == r;
    }
  }

  /** After peeling: the live rows and, in descending order, what is left of the dead ones. */
  lemma Peeled(s: State, kept: seq<Row>, less: Files)
    requires Inv(s) && Filled(s) && CutShort(s.files, less) && Buried(kept, less)
    requires |kept| <= |s.rows| - s.n && (forall r :: r in kept ==> r in s.rows[s.n..] && r.rowSize > 0)
    requires Tiled(Extents(s.rows[..s.n]) + Extents(kept), SizesOf(less))
    ensures var t := s.(rows := s.rows[..s.n] + kept, files := less);
      Kept(s, t) && NoLoss(t.rows, t.n, less)
  {
    var t := s.(rows := s.rows[..s.n] + kept, files := less);
    ExtentsConcat(s.rows[..s.n], kept);
    DeadRowsFine(s, kept);
    SameGrown(s.rows[..s.n]);
    Reassembled(s, t, s.rows[..s.n], kept);
    BuriedNoLoss(s.rows[..s.n], kept, less);
  }

  lemma SameGrown(rows: seq<Row>)
    ensures Grown(rows, rows)
  {
  }

  lemma BuriedNoLoss(live: seq<Row>, kept: seq<Row>, less: Files)
    requires Buried(kept, less) && (forall r :: r in kept ==> r.rowSize > 0)
    ensures NoLoss(live + kept, |live|, less)
  {
    forall i | |live| <= i < |live + kept| ensures (live + kept)[i] in kept {
    }
  }

  /** After gluing and absorbing: the grown live rows and the free rows left over. */
  lemma Absorbed(s: State, grown: seq<Row>, rest: seq<Extent>, ver: nat)
    requires Inv(s) && Filled(s) && |rest| <= |s.rows| - s.n && Grown(s.rows[..s.n], grown)
    requires Gapped(rest) && EndsInside(rest, SizesOf(s.files)) && NotBehind(grown, |grown|, rest)
    requires Tiled(Extents(grown) + multiset(rest), SizesOf(s.files))
    ensures var t := s.(rows := grown + FreeRows(rest, ver));
      Kept(s, t) && Compact(t.rows, t.n, t.files)
  {
    hide TableOk, RowsOk, Tiled, Gapped, EndsInside, NotBehind, ExtentsUpTo;
    var t := s.(rows := grown + FreeRows(rest, ver));
    RestSolid(grown, rest, SizesOf(s.files));
    FreeRowsExtents(rest, ver);
    ExtentsConcat(grown, FreeRows(rest, ver));
    GapsCompact(grown, rest, ver, s.files);
    Reassembled(s, t, grown, FreeRows(rest, ver));
  }

  lemma RestSolid(grown: seq<Row>, rest: seq<Extent>, sizes: Sizes)
    requires Tiled(Extents(grown) + multiset(rest), sizes)
    ensures forall e :: e in rest ==> e.size > 0
  {
    assert forall e :: e in rest ==> e in Extents(grown) + multiset(rest);
  }

  lemma GapsCompact(grown: seq<Row>, rest: seq<Extent>, ver: nat, files: Files)
    requires Gapped(rest) && EndsInside(rest, SizesOf(files)) && NotBehind(grown, |grown|, rest)
    requires forall e :: e in rest ==> e.size > 0
    ensures Compact(grown + FreeRows(rest, ver), |grown|, files)
  {
    var rows := grown + FreeRows(rest, ver);
    forall i | |grown| <= i < |rows| ensures rows[i] == FreeRows(rest, ver)[i - |grown|] && rest[i - |grown|].size > 0 {
      assert rest[i - |grown|] in rest;
    }
  }

  // ---- released space stays recognisable ----

  lemma FilledPlace(cfg: Config, split: bool, s: State, slot: Slot, key: Key, val: Payload, flags: Flags, line: nat)
    requires Filled(s) && ConfigOk(cfg) && PayloadOk(val) && s.n <= line <= |s.rows|
    requires SlotOk(cfg, split, s.rows, line, Need(val), slot)
    ensures var p := Place(cfg, s, slot, key, val, flags);
      && line <= p.d < |p.c|
      && Filled(s.(rows := p.c)) && (p.row.rowSize > 0 ==> p.row.valSize > 0)
  {
  }

  lemma FilledShift(s: State, p: Placing, line: nat, hole: nat, parked: Row)
    requires Filled(s.(rows := p.c)) && (p.row.rowSize > 0 ==> p.row.valSize > 0)
    requires hole <= s.n <= line <= p.d < |p.c| && VersionOf(parked) == VersionOf(p.c[hole])
    ensures Filled(s.(rows := Shift(p.c, p.d, line, hole, parked, p.row), n := if hole == s.n then s.n + 1 else s.n))
  {
  }

  lemma FilledMoved(cfg: Config, s: State, a: WriteArgs, slot: Slot)
    requires Inv(s) && Filled(s) && WriteOk(cfg, s, a, slot) && a.key in s.table
    ensures var line := Line(cfg, s, a.revert);
      Filled(MoveAt(Touch(s, a.key, line, a.revert), Place(cfg, s, slot, a.key, a.val, NewFlags(s, a)), a.key, line))
  {
    var line := Line(cfg, s, a.revert);
    var p := Place(cfg, s, slot, a.key, a.val, NewFlags(s, a));
    FilledPlace(cfg, a.split, s, slot, a.key, a.val, NewFlags(s, a), line);
    FilledShift(s, p, line, s.table[a.key], p.c[s.table[a.key]].(ver := s.sync));
  }

  lemma FilledInserted(cfg: Config, s: State, a: WriteArgs, slot: Slot)
    requires Inv(s) && Filled(s) && WriteOk(cfg, s, a, slot)
    ensures Filled(InsertNew(cfg, s, a, slot))
  {
    var line := Line(cfg, s, a.revert);
    var p := Place(cfg, s, slot, a.key, a.val, NewFlags(s, a));
    FilledPlace(cfg, a.split, s, slot, a.key, a.val, NewFlags(s, a), line);
    FilledShift(s, p, line, s.n, p.c[s.n]);
  }

  lemma FilledWrite(cfg: Config, s: State, a: WriteArgs, slot: Slot)
    requires Inv(s) && Filled(s) && WriteOk(cfg, s, a, slot)
    ensures Filled(Write(cfg, s, a, slot))
  {
    match Kind(s, a)
    case Refused =>
    case Unchanged =>
    case FlagsOnly =>
    case InPlace =>
    case Moved => FilledMoved(cfg, s, a, slot);
    case Inserted => FilledInserted(cfg, s, a, slot);
  }

  lemma FilledUndo(s: State, op: Op)
    requires Inv(s) && Filled(s) && (op.OpUndelete? || op.OpUnwrite?)
    ensures op.OpUndelete? ==> Filled(Undelete(s, op.key, op.row, op.revert))
    ensures op.OpUnwrite? ==> Filled(Unwrite(s, op.key, op.row))
  {
    ChosenIsParked(s, op.key, op.row);
  }

  lemma FilledAppend(cfg: Config, s: State, key: Key, val: Payload, flags: Flags, file: nat)
    requires Inv(s) && Filled(s) && ConfigOk(cfg) && PayloadOk(val)
    ensures Filled(AppendNew(cfg, s, key, val, flags, file))
  {
    hide Tiled, Extents, SizesOf;
    var p := Place(cfg, s, Append(file), key, val, flags);
    FilledPlace(cfg, false, s, Append(file), key, val, flags, Clamp(s));
    FilledShift(s, p, Clamp(s), s.n, p.c[s.n]);
  }

  /** Every step of a run leaves released space recognisable, so recycle may always follow. */
  lemma FilledStep(cfg: Config, s: State, op: Op)
    requires Inv(s) && Filled(s) && LegalOp(cfg, s, op)
    ensures Filled(Step(cfg, s, op))
  {
    hide Tiled, Extents, SizesOf, Write, AppendNew, Undelete, Unwrite;
    match op
    case OpWrite(a, slot) => FilledWrite(cfg, s, a, slot);
    case OpAppend(a, slot) =>
      if a.key in s.table {
        FilledWrite(cfg, s, AsOverwrite(a), slot);
      } else {
        FilledAppend(cfg, s, a.key, a.val, NewFlags(s, a), slot.file);
      }
    case OpDelete(_, _, _) =>
    case OpUndelete(_, _, _) => FilledUndo(s, op);
    case OpUnwrite(_, _) => FilledUndo(s, op);
    case OpRename(_, _) =>
    case OpSession =>
  }

  lemma DeadInside(s: State, dead: seq<Row>, i: nat)
    requires s.n <= |s.rows| && NoLoss(s.rows, s.n, s.files) && i < |dead| && dead[i] in s.rows[s.n..]
    ensures dead[i].fileId in s.files && dead[i].offset + dead[i].rowSize < |s.files[dead[i].fileId]|
  {
    var j :| 0 <= j < |s.rows[s.n..]| && s.rows[s.n..][j] == dead[i];
    assert s.rows[s.n + j] == dead[i];
  }

  lemma AscendInside(s: State, dead: seq<Row>)
    requires s.n <= |s.rows| && NoLoss(s.rows, s.n, s.files) && (forall r :: r in dead ==> r in s.rows[s.n..])
    ensures EndsInside(Ascend(dead), SizesOf(s.files))
  {
    AscendAt(dead);
    forall i | 0 <= i < |dead|
      ensures Ascend(dead)[i].file in s.files && End(Ascend(dead)[i]) < |s.files[Ascend(dead)[i].file]|
    {
      var j := |dead| - 1 - i;
      assert dead[j] in dead && Ascend(dead)[i] == ExtentOf(dead[j]);
      DeadInside(s, dead, j);
    }
  }

  lemma AscendSorted(dead: seq<Row>)
    requires Descending(dead)
    ensures |Ascend(dead)| == |dead| && Ascending(Ascend(dead))
  {
    AscendAt(dead);
  }

  /** The dead rows as extents in file order, ready to be glued. */
  lemma MergeStarts(s: State, dead: seq<Row>)
    requires s.n <= |s.rows| && Tiled(Extents(s.rows), SizesOf(s.files))
    requires NoLoss(s.rows, s.n, s.files) && dead == SortedDead(s.rows[s.n..])
    ensures |Ascend(dead)| == |dead| <= |s.rows| - s.n
    ensures Ascending(Ascend(dead)) && EndsInside(Ascend(dead), SizesOf(s.files))
    ensures Tiled(Extents(s.rows[..s.n]) + multiset(Ascend(dead)), SizesOf(s.files))
  {
    SortedDeadIs(s.rows[s.n..]);
    SplitExtents(s.rows, s.n);
    AscendExtents(dead);
    AscendSorted(dead);
    AscendInside(s, dead);
  }

  /** The live rows and the sorted dead ones, before any is peeled off. */
  lemma PeelStarts(s: State)
    requires s.n <= |s.rows| && Tiled(Extents(s.rows), SizesOf(s.files))
    ensures var dead := SortedDead(s.rows[s.n..]);
      && Descending(dead) && |dead| <= |s.rows| - s.n && (forall r :: r in dead ==> r in s.rows[s.n..] && r.rowSize > 0)
      && AllTiled(Extents(s.rows[..s.n]), [], dead, s.files)
  {
    var dead := SortedDead(s.rows[s.n..]);
    SortedDeadIs(s.rows[s.n..]);
    SplitExtents(s.rows, s.n);
    assert Extents(s.rows[..s.n]) + Extents([]) + Extents(dead) == Extents(s.rows);
  }

  // ---- dropping expired records ----

  function Named(list: seq<Key>, i: nat): set<Key>
    requires i <= |list|
  {
    if i == 0 then {} else Named(list, i - 1) + {list[i - 1]}
  }

  lemma {:induction false} NamedIs(list: seq<Key>, i: nat)
    requires i <= |list|
    ensures forall k :: k in Named(list, i) <==> exists j :: 0 <= j < i && list[j] == k
  {
    if i > 0 {
      NamedIs(list, i - 1);
    }
  }

  /** The listed records up to `i` are gone, nothing else has changed. */
  ghost predicate Dropped(s0: State, s: State, list: seq<Key>, i: nat) {
    Inv(s0) && i <= |list| && Inv(s) && Filled(s) && |s.rows| == |s0.rows| && Abs(s) == Abs(s0) - Named(list, i)
  }

  lemma DropStep(cfg: Config, s0: State, s: State, list: seq<Key>, i: nat, revert: bool)
    requires Dropped(s0, s, list, i) && i < |list|
    ensures Dropped(s0, Delete(s, list[i], revert, true), list, i + 1)
  {
    FilledStep(cfg, s, OpDelete(list[i], revert, true));
    DeleteRefines(s, list[i], revert, true);
    DropOne(Abs(s0), Abs(s), list, i);
  }

  lemma DropOne(m0: map<Key, Entry>, m: map<Key, Entry>, list: seq<Key>, i: nat)
    requires i < |list| && m == m0 - Named(list, i)
    ensures Drop(m, list[i], true) == m0 - Named(list, i + 1)
  {
  }

  lemma DropEnds(s0: State, s: State, list: seq<Key>, expired: set<Key>)
    requires Dropped(s0, s, list, |list|)
    requires forall k :: k in list <==> k in expired && k in s0.table
    ensures Abs(s) == Abs(s0) - expired
  {
    hide TableOk, RowsOk, Tiled, Extents, SizesOf, EntryOf;
    NamedIs(list, |list|);
    assert Abs(s0).Keys == s0.table.Keys;
    assert forall k :: k in Abs(s0) ==> (k in Named(list, |list|) <==> k in expired);
  }

  lemma NothingDead(s: State)
    requires Inv(s) && Filled(s) && NoLoss(s.rows, s.n, s.files) && SortedDead(s.rows[s.n..]) == []
    ensures Kept(s, s) && Merged(s, s.rows, s.files)
  {
    hide Tiled, Extents, SizesOf, RowsOk, TableOk;
    forall r | r in s.rows[s.n..] ensures r.rowSize > 0 {
      var j :| 0 <= j < |s.rows[s.n..]| && s.rows[s.n..][j] == r;
      assert s.rows[s.n + j] == r;
    }
    AllSorted(s.rows[s.n..]);
    NothingIsMerged(s);
  }

  lemma {:induction false} AllSorted(rows: seq<Row>)
    requires forall r :: r in rows ==> r.rowSize > 0
    ensures |SortedDead(rows)| == |rows|
  {
    if rows != [] {
      SortedDeadIs(rows[1..]);
      InsertSorts(rows[0], SortedDead(rows[1..]));
      AllSorted(rows[1..]);
    }
  }

  /** The live keys whose time has run out, the highest row first. */
  function ExpiredKeys(rows: seq<Row>, n: nat, expired: set<Key>): seq<Key>
    requires n <= |rows|
  {
    if n == 0 then []
    else (if rows[n - 1].key in expired then [rows[n - 1].key] else []) + ExpiredKeys(rows, n - 1, expired)
  }

  lemma {:induction false} ExpiredHas(rows: seq<Row>, n: nat, expired: set<Key>, k: Key)
    requires n <= |rows|
    ensures k in ExpiredKeys(rows, n, expired) <==> k in expired && exists i :: 0 <= i < n && rows[i].key == k
  {
    if n > 0 {
      ExpiredHas(rows, n - 1, expired, k);
    }
  }

  ghost predicate Falls(list: seq<Key>, table: map<Key, nat>, below: nat) {
    && (forall x :: 0 <= x < |list| ==> list[x] in table && table[list[x]] < below)
    && (forall x, y :: 0 <= x < y < |list| ==> table[list[x]] > table[list[y]])
  }

  lemma FallsOn(list: seq<Key>, table: map<Key, nat>, below: nat, k: Key)
    requires (list == [] || Falls(list, table, below)) && k in table && table[k] == below
    ensures Falls([k] + list, table, below + 1)
  {
  }

  lemma FallsFurther(list: seq<Key>, table: map<Key, nat>, below: nat)
    requires list == [] || Falls(list, table, below)
    ensures Falls(list, table, below + 1)
  {
  }

  lemma {:induction false} ExpiredFall(rows: seq<Row>, n: nat, table: map<Key, nat>, expired: set<Key>, i: nat)
    requires n <= |rows| && TableOk(rows, n, table) && i <= n
    ensures i > 0 ==> Falls(ExpiredKeys(rows, i, expired), table, i)
  {
    hide Falls;
    if i > 0 {
      var less := ExpiredKeys(rows, i - 1, expired);
      ExpiredFall(rows, n, table, expired, i - 1);
      if rows[i - 1].key in expired {
        FallsOn(less, table, i - 1, rows[i - 1].key);
      } else {
        assert [] + less == less;
        FallsFurther(less, table, i - 1);
      }
    }
  }

  /** The list names the expired live keys, each once, and the row numbers fall. */
  lemma ExpiredAre(rows: seq<Row>, n: nat, table: map<Key, nat>, expired: set<Key>)
    requires n <= |rows| && TableOk(rows, n, table)
    ensures var list := ExpiredKeys(rows, n, expired);
      && (forall k :: k in list <==> k in expired && k in table)
      && (forall x, y :: 0 <= x < y < |list| ==> table[list[x]] > table[list[y]])
  {
    ExpiredFall(rows, n, table, expired, n);
    forall k | true ensures k in ExpiredKeys(rows, n, expired) <==> k in expired && k in table {
      ExpiredHas(rows, n, expired, k);
    }
  }

  /** Deleting one key after the other, locked or not. */
  ghost function DeleteAll(s: State, keys: seq<Key>, revert: bool): (t: State)
    requires Inv(s)
    ensures Inv(t)
    decreases |keys|
  {
    if keys == [] then s
    else
      DeleteRefines(s, keys[0], revert, true);
      DeleteAll(Delete(s, keys[0], revert, true), keys[1..], revert)
  }

  // ---- what recycle leaves of the history ----

  /** A live row owns bytes of the same file behind this one. */
  ghost predicate RecordBehind(rows: seq<Row>, n: nat, r: Row)
    requires n <= |rows|
  {
    exists j :: 0 <= j < n && rows[j].rowSize > 0 && rows[j].fileId == r.fileId && rows[j].offset >= r.offset + r.rowSize
  }

  lemma BehindIs(rows: seq<Row>, n: nat, r: Row)
    requires n <= |rows|
    ensures LiveBehind(Extents(rows[..n]), r) <==> RecordBehind(rows, n, r)
  {
    if LiveBehind(Extents(rows[..n]), r) {
      var e :| e in Extents(rows[..n]) && e.file == r.fileId && e.start >= r.offset + r.rowSize;
      var j := ExtentsFrom(rows[..n], e, n);
      assert rows[..n][j] == rows[j];
    }
    if RecordBehind(rows, n, r) {
      var j :| 0 <= j < n && rows[j].rowSize > 0 && rows[j].fileId == r.fileId && rows[j].offset >= r.offset + r.rowSize;
      assert rows[..n][j] == rows[j];
      ExtentsHas(rows[..n], j);
    }
  }

  /** Releasing: no record changes, a parked row is kept as it is exactly when it owns bytes and a record lies behind
      it in its file, and nothing dead is left at a file's end. */
  ghost predicate Released(s: State, rows: seq<Row>, files: Files)
    requires s.n <= |s.rows|
  {
    && s.n <= |rows| && rows[..s.n] == s.rows[..s.n] && CutShort(s.files, files) && NoLoss(rows, s.n, files)
    && (forall r :: r in rows[s.n..] <==> r in s.rows[s.n..] && r.rowSize > 0 && RecordBehind(s.rows, s.n, r))
  }

  /** Merging: records only grow, no version of the history is left, and what is left dead is compact. */
  ghost predicate Merged(s: State, rows: seq<Row>, files: Files)
    requires s.n <= |s.rows|
  {
    && s.n <= |rows| && Grown(s.rows[..s.n], rows[..s.n]) && CutShort(s.files, files) && Compact(rows, s.n, files)
    && (forall i :: s.n <= i < |rows| ==> rows[i].key == "" && rows[i].valSize == 0)
  }

  /** All that recycle does once expired records are gone. */
  ghost predicate Recycled(s: State, t: State, merge: bool)
    requires s.n <= |s.rows|
  {
    if s.n == 0 then t.rows == [] && t.n == 0 && t.files == map[] && t.table == map[] && t.sync == 0
    else
      && t.n == s.n && t.table == s.table && t.chg == s.chg && t.safeLine == s.safeLine
      && if s.n == |s.rows| then t.rows == s.rows && t.files == s.files && t.sync == Next(s.sync)
         else if merge then Merged(s, t.rows, t.files) && t.sync == Next(s.sync)
         else if NoLoss(s.rows, s.n, s.files) then t.rows == s.rows && t.files == s.files && t.sync == s.sync
         else Released(s, t.rows, t.files) && t.sync == Next(s.sync)
  }

  lemma AbsorbedIsMerged(s: State, grown: seq<Row>, rest: seq<Extent>, ver: nat)
    requires s.n <= |s.rows| && Grown(s.rows[..s.n], grown) && Compact(grown + FreeRows(rest, ver), s.n, s.files)
    ensures Merged(s, grown + FreeRows(rest, ver), s.files)
  {
    hide Compact;
    var rows := grown + FreeRows(rest, ver);
    assert rows[..s.n] == grown;
    assert forall i :: s.n <= i < |rows| ==> rows[i] == FreeRows(rest, ver)[i - s.n];
  }

  lemma NothingIsMerged(s: State)
    requires s.n == |s.rows| && Compact(s.rows, s.n, s.files)
    ensures Merged(s, s.rows, s.files)
  {
    hide Compact;
  }

  lemma PeeledIsReleased(s: State, kept: seq<Row>, less: Files)
    requires s.n <= |s.rows| && CutShort(s.files, less) && NoLoss(s.rows[..s.n] + kept, s.n, less)
    requires forall r :: r in kept ==> r in s.rows[s.n..] && r.rowSize > 0
    requires forall r :: r in SortedDead(s.rows[s.n..]) ==> (r in kept <==> LiveBehind(Extents(s.rows[..s.n]), r))
    ensures Released(s, s.rows[..s.n] + kept, less)
  {
    SortedDeadIs(s.rows[s.n..]);
    var rows := s.rows[..s.n] + kept;
    assert rows[s.n..] == kept;
    forall r | true ensures r in kept <==> r in s.rows[s.n..] && r.rowSize > 0 && RecordBehind(s.rows, s.n, r) {
      BehindIs(s.rows, s.n, r);
    }
  }

  // ---- the passes over the dead rows ----

  /** Cuts dead space off the file ends; the other dead rows stay, in descending order. */
  method Release(rows: seq<Row>, n: nat, files: Files, ghost s: State) returns (rows': seq<Row>, files': Files)
    requires s.rows == rows && s.n == n && s.files == files && Inv(s) && Filled(s)
    ensures Kept(s, s.(rows := rows', files := files')) && NoLoss(rows', n, files') && Released(s, rows', files')
  {
    var dead := SortedDead(rows[n..]);
    PeelStarts(s);
    var kept;
    kept, files' := Peel(dead, files, Extents(rows[..n]));
    Peeled(s, kept, files');
    rows' := rows[..n] + kept;
    SortedDeadIs(rows[n..]);
    PeeledIsReleased(s, kept, files');
  }

  /** Glues the dead extents together and lets the records in front of them grow. */
  method Merge(rows: seq<Row>, n: nat, files: Files, ver: nat, ghost s: State) returns (rows': seq<Row>)
    requires s.rows == rows && s.n == n && s.files == files && Inv(s) && Filled(s) && NoLoss(rows, n, files)
    ensures Kept(s, s.(rows := rows')) && Merged(s, rows', files)
  {
    hide Tiled, Extents, SizesOf, RowsOk, TableOk, Merged, Compact, NoLoss, Kept, Abs;
    var dead := SortedDead(rows[n..]);
    if dead == [] {
      NothingDead(s);
      return rows;
    }
    MergeStarts(s, dead);
    var merged := Coalesce(Ascend(dead), Extents(rows[..n]), SizesOf(files));
    var grown, rest := Absorb(rows[..n], merged, SizesOf(files));
    Absorbed(s, grown, rest, ver);
    rows' := grown + FreeRows(rest, ver);
    AbsorbedIsMerged(s, grown, rest, ver);
  }

  method Reclaim(rows: seq<Row>, n: nat, files: Files, release: bool, merge: bool, ver: nat, ghost s: State)
    returns (rows': seq<Row>, files': Files)
    requires s.rows == rows && s.n == n && s.files == files && Inv(s) && Filled(s)
    requires !release ==> NoLoss(rows, n, files)
    ensures Kept(s, s.(rows := rows', files := files'))
    ensures if merge then Merged(s, rows', files')
            else if release then Released(s, rows', files') else rows' == rows && files' == files
  {
    hide Tiled, Extents, SizesOf, RowsOk, TableOk, NoLoss, Compact;
    rows', files' := rows, files;
    if release {
      rows', files' := Release(rows', n, files', s);
    }
    if merge {
      rows' := Merge(rows', n, files', ver, s.(rows := rows', files := files'));
    }
  }

  lemma KeptStamp(s: State, t: State)
    requires exists rows, files :: Kept(s, s.(rows := rows, files := files)) && t.rows == rows && t.files == files
    requires t.n == s.n && t.table == s.table
    ensures Kept(s, t)
  {
  }

  lemma EmptyIsKept(s: State, t: State)
    requires Inv(s) && s.n == 0 && t.n == 0 && t.rows == [] && t.files == map[] && t.table == map[]
    ensures Kept(s, t)
  {
    assert s.table == map[] by {
      forall k | k in s.table ensures false {
      }
    }
  }
}
