/** Whole runs of the database against a plain map. */
module Runs {
  import opened Bytes
  import opened Rows
  import opened Index
  import opened Refine

  datatype Op =
    | OpWrite(args: WriteArgs, slot: Slot)
    | OpAppend(args: WriteArgs, slot: Slot)
    | OpDelete(key: Key, revert: bool, unlock: bool)
    | OpUndelete(key: Key, row: Option<nat>, revert: bool)
    | OpUnwrite(key: Key, row: Option<nat>)
    | OpRename(key: Key, newKey: Key)
    | OpSession

  /** f_append hands an existing key to f_write, without history, without splitting and without UNLOCK,
      which it has taken out of the flags for its own check. */
  function AsOverwrite(a: WriteArgs): WriteArgs {
    a.(revert := false, split := false, overwrite := true, unlock := false)
  }

  function WithoutUnlock(a: WriteArgs): WriteArgs { a.(unlock := false) }

  /** The choices a run makes: legal rows and encodable values, and nothing else. */
  ghost predicate LegalOp(cfg: Config, s: State, op: Op)
    requires Inv(s)
  {
    match op
    case OpWrite(a, slot) => WriteOk(cfg, s, a, slot)
    case OpAppend(a, slot) =>
      if a.key in s.table then WriteOk(cfg, s, AsOverwrite(a), slot)
      else ConfigOk(cfg) && PayloadOk(a.val) && slot.Append?
    case _ => true
  }

  ghost function Step(cfg: Config, s: State, op: Op): State
    requires Inv(s) && LegalOp(cfg, s, op)
  {
    match op
    case OpWrite(a, slot) => Write(cfg, s, a, slot)
    case OpAppend(a, slot) =>
      if a.key in s.table then Write(cfg, s, AsOverwrite(a), slot)
      else AppendNew(cfg, s, a.key, a.val, NewFlags(s, a), slot.file)
    case OpDelete(key, revert, unlock) => Delete(s, key, revert, unlock)
    case OpUndelete(key, row, revert) => Undelete(s, key, row, revert)
    case OpUnwrite(key, row) => Unwrite(s, key, row)
    case OpRename(key, newKey) => Rename(s, key, newKey)
    case OpSession => NewSession(s)
  }

  /** The stored version an undo step is pointed at: all a plain map would have to be told. */
  ghost function Recalled(s: State, op: Op): Option<Entry>
    requires Inv(s)
  {
    if !op.OpUndelete? && !op.OpUnwrite? then None
    else
      var at := Chosen(s, op.key, op.row);
      if op.key == "" || at.None? then None
      else
        ChosenIsParked(s, op.key, op.row);
        Some(EntryOf(s.files, s.rows[at.value]))
  }

  /** The same step on a plain map. */
  ghost function PlainStep(m: map<Key, Entry>, op: Op, recalled: Option<Entry>): map<Key, Entry> {
    match op
    case OpWrite(a, _) => Put(m, a)
    case OpAppend(a, _) => Put(m, WithoutUnlock(a))
    case OpDelete(key, _, unlock) => Drop(m, key, unlock)
    case OpUndelete(key, _, _) => if key !in m && recalled.Some? then m[key := recalled.value] else m
    case OpUnwrite(key, _) =>
      if key !in m || recalled.None? || m[key].flags.readOnly || m[key].flags.appendOnly then m
      else m[key := recalled.value.(flags := m[key].flags)]
    case OpRename(key, newKey) => Relabel(m, key, newKey)
    case OpSession => m
  }

  lemma AppendStep(cfg: Config, s: State, op: Op)
    requires Inv(s) && op.OpAppend? && LegalOp(cfg, s, op)
    ensures Inv(Step(cfg, s, op)) && Abs(Step(cfg, s, op)) == Put(Abs(s), WithoutUnlock(op.args))
  {
    hide TableOk, RowsOk, Tiled, Extents, SizesOf;
    var a := op.args;
    if a.key in s.table {
      WriteRefines(cfg, s, AsOverwrite(a), op.slot);
      assert Put(Abs(s), AsOverwrite(a)) == Put(Abs(s), WithoutUnlock(a));
    } else {
      AppendRefines(cfg, s, a.key, a.val, NewFlags(s, a), op.slot.file);
    }
  }

  predicate WriteRefused(f: Flags, grows: bool) {
    f.readOnly || (f.appendOnly && !grows)
  }

  /** UNLOCK is lost on the way through f_append: an append with it writes exactly when the same append without it
      would, and so does what the same write with UNLOCK does exactly when the record is not locked against it,
      or already reads as it would. */
  lemma AppendLosesUnlock(cfg: Config, s: State, a: WriteArgs, slot: Slot)
    requires Inv(s) && a.unlock && LegalOp(cfg, s, OpAppend(a, slot))
    ensures LegalOp(cfg, s, OpAppend(WithoutUnlock(a), slot))
    ensures Step(cfg, s, OpAppend(a, slot)) == Step(cfg, s, OpAppend(WithoutUnlock(a), slot))
    ensures Inv(Step(cfg, s, OpAppend(a, slot)))
    ensures Abs(Step(cfg, s, OpAppend(a, slot))) == Put(Abs(s), a) <==>
      (a.key in Abs(s) && WriteRefused(Abs(s)[a.key].flags, a.grows) ==>
         Abs(s)[a.key] == Entry(a.val, if a.flags.Some? then a.flags.value else Abs(s)[a.key].flags))
  {
    hide TableOk, RowsOk, Tiled, Extents, SizesOf, Write;
    AppendStep(cfg, s, OpAppend(a, slot));
    PutUnlocked(Abs(s), a);
  }

  lemma PutUnlocked(m: map<Key, Entry>, a: WriteArgs)
    requires a.unlock
    ensures Put(m, WithoutUnlock(a)) == Put(m, a) <==>
      (a.key in m && WriteRefused(m[a.key].flags, a.grows) ==>
         m[a.key] == Entry(a.val, if a.flags.Some? then a.flags.value else m[a.key].flags))
  {
    if a.key in m {
      assert Put(m, a)[a.key] == Entry(a.val, if a.flags.Some? then a.flags.value else m[a.key].flags);
      if Put(m, WithoutUnlock(a)) != Put(m, a) {
        assert m[a.key := m[a.key]] == m;
      }
    }
  }

  lemma UndeleteStep(s: State, op: Op)
    requires Inv(s) && op.OpUndelete?
    ensures var t := Undelete(s, op.key, op.row, op.revert);
      Inv(t) && Abs(t) == PlainStep(Abs(s), op, Recalled(s, op))
  {
    UndeleteRefines(s, op.key, op.row, op.revert);
  }

  lemma UnwriteStep(s: State, op: Op)
    requires Inv(s) && op.OpUnwrite?
    ensures var t := Unwrite(s, op.key, op.row);
      Inv(t) && Abs(t) == PlainStep(Abs(s), op, Recalled(s, op))
  {
    UnwriteRefines(s, op.key, op.row);
    if op.key in s.table {
      assert Abs(s)[op.key].flags == s.rows[s.table[op.key]].flags;
    }
  }

  /** One step of the database is one step of the plain map. */
  lemma StepRefines(cfg: Config, s: State, op: Op)
    requires Inv(s) && LegalOp(cfg, s, op)
    ensures Inv(Step(cfg, s, op))
    ensures Abs(Step(cfg, s, op)) == PlainStep(Abs(s), op, Recalled(s, op))
  {
    match op
    case OpWrite(a, slot) => WriteRefines(cfg, s, a, slot);
    case OpAppend(_, _) => AppendStep(cfg, s, op);
    case OpDelete(key, revert, unlock) => DeleteRefines(s, key, revert, unlock);
    case OpUndelete(_, _, _) => UndeleteStep(s, op);
    case OpUnwrite(_, _) => UnwriteStep(s, op);
    case OpRename(key, newKey) => RenameRefines(s, key, newKey);
    case OpSession =>
  }

  ghost predicate LegalRun(cfg: Config, s: State, ops: seq<Op>)
    requires Inv(s)
    decreases |ops|
  {
    ops == [] || (LegalOp(cfg, s, ops[0]) && (StepRefines(cfg, s, ops[0]); LegalRun(cfg, Step(cfg, s, ops[0]), ops[1..])))
  }

  ghost function Run(cfg: Config, s: State, ops: seq<Op>): State
    requires Inv(s) && LegalRun(cfg, s, ops)
    decreases |ops|
  {
    if ops == [] then s
    else
      StepRefines(cfg, s, ops[0]);
      Run(cfg, Step(cfg, s, ops[0]), ops[1..])
  }

  /** The plain map taken through the same steps. */
  ghost function PlainRun(cfg: Config, s: State, m: map<Key, Entry>, ops: seq<Op>): map<Key, Entry>
    requires Inv(s) && LegalRun(cfg, s, ops)
    decreases |ops|
  {
    if ops == [] then m
    else
      StepRefines(cfg, s, ops[0]);
      PlainRun(cfg, Step(cfg, s, ops[0]), PlainStep(m, ops[0], Recalled(s, ops[0])), ops[1..])
  }

  /** In every reachable state the table is a bijection, the extents tile the files,
      and the live records are those of a plain map that made the same steps. */
  lemma {:induction false} RunRefines(cfg: Config, s: State, ops: seq<Op>)
    requires Inv(s) && LegalRun(cfg, s, ops)
    ensures Inv(Run(cfg, s, ops))
    ensures Abs(Run(cfg, s, ops)) == PlainRun(cfg, s, Abs(s), ops)
    decreases |ops|
  {
    if ops != [] {
      StepRefines(cfg, s, ops[0]);
      RunRefines(cfg, Step(cfg, s, ops[0]), ops[1..]);
    }
  }

  /** The empty database satisfies the invariant, so every run from it does. */
  lemma EmptyIsSound()
    ensures Inv(State([], 0, 0, {}, map[], map[], 0))
    ensures Abs(State([], 0, 0, {}, map[], map[], 0)) == map[]
  {
  }
}
