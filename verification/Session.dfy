/** Rolling back a session: after any run of writes under REVERT every session-start value can be restored. */
module Session {
  import opened Bytes
  import opened Rows
  import opened Index
  import opened Refine
  import opened History

  /** The parked row `i` holds the session-start value of its key. */
  ghost predicate HoldsStart(m0: map<Key, Entry>, s: State, k: Key, i: int) {
    s.n <= i < s.safeLine <= |s.rows| && s.rows[i].key == k && k in m0 && ValueOf(s.files, s.rows[i]) == m0[k].val
  }

  /** Every changed key of the session start has its session-start value in SAFE. */
  ghost predicate StartHeld(m0: map<Key, Entry>, s: State) {
    forall k :: k in m0 && k in s.chg ==> exists i :: HoldsStart(m0, s, k, i)
  }

  /** SAFE holds rows of changed session-start keys only, and no key twice. */
  ghost predicate SafeOk(m0: map<Key, Entry>, s: State) {
    && s.n <= s.safeLine <= |s.rows|
    && (forall i :: s.n <= i < s.safeLine ==> s.rows[i].key in m0 && s.rows[i].key in s.chg)
    && (forall i, j :: s.n <= i < j < s.safeLine ==> s.rows[i].key != s.rows[j].key)
  }

  /** Unchanged keys still read as they did. */
  ghost predicate LiveOk(m0: map<Key, Entry>, s: State) {
    && m0.Keys <= s.table.Keys
    && (forall k :: k in m0 && k !in s.chg ==>
          s.table[k] < |s.rows| && ValueOf(s.files, s.rows[s.table[k]]) == m0[k].val)
  }

  /** SAFE holds exactly one row per changed key of the session start, with its session-start value;
      unchanged keys still read as they did, and every other live key was inserted in this session. */
  ghost predicate SessionInv(m0: map<Key, Entry>, s: State) {
    && Inv(s)
    && s.chg <= s.table.Keys
    && (forall k :: k in s.table && k !in m0 ==> k in s.chg)
    && SafeOk(m0, s) && LiveOk(m0, s) && StartHeld(m0, s)
  }

  lemma SessionStarts(s: State)
    requires Inv(s)
    ensures SessionInv(Abs(s), NewSession(s))
  {
  }

  /** A write of the session: REVERT is on and the record does not opt out of it. */
  ghost predicate SessionWrite(cfg: Config, s: State, a: WriteArgs, slot: Slot)
    requires Inv(s)
  {
    WriteOk(cfg, s, a, slot) && cfg.minSafe == 0 && a.revert && !NewFlags(s, a).noRevert
  }

  // ---- one step ----

  /** Every row keeps its key and reads as before. */
  ghost predicate ReadsSame(s: State, t: State) {
    && t.n == s.n && t.table == s.table && t.chg == s.chg && t.safeLine == s.safeLine && |t.rows| == |s.rows|
    && (forall i :: 0 <= i < |s.rows| ==>
          t.rows[i].key == s.rows[i].key && ValueOf(t.files, t.rows[i]) == ValueOf(s.files, s.rows[i]))
  }

  lemma FlagsRead(s: State, key: Key, flags: Flags)
    requires key in s.table && s.table[key] < |s.rows|
    ensures ReadsSame(s, SetFlags(s, key, flags))
  {
  }

  lemma SameReading(m0: map<Key, Entry>, s: State, t: State)
    requires SafeOk(m0, s) && LiveOk(m0, s) && StartHeld(m0, s) && ReadsSame(s, t)
    ensures SafeOk(m0, t) && LiveOk(m0, t) && StartHeld(m0, t)
  {
    hide ValueOf;
    forall k | k in m0 && k in t.chg ensures exists i :: HoldsStart(m0, t, k, i) {
      var i :| HoldsStart(m0, s, k, i);
      assert HoldsStart(m0, t, k, i);
    }
  }

  lemma FlagsStep(m0: map<Key, Entry>, s: State, key: Key, flags: Flags)
    requires SessionInv(m0, s) && key in s.table
    ensures SessionInv(m0, SetFlags(s, key, flags))
  {
    hide RowsOk, Tiled, Extents, SizesOf, ValueOf, SafeOk, LiveOk, StartHeld;
    SetFlagsRefines(s, key, flags);
    FlagsRead(s, key, flags);
    SameReading(m0, s, SetFlags(s, key, flags));
  }

  lemma InPlaceRead(s: State, key: Key, val: Payload, flags: Flags, i: nat)
    requires Inv(s) && key in s.table && Fits(s.rows[s.table[key]], val) && i < |s.rows| && i != s.table[key]
    ensures var t := Overwrite(s, key, val, flags);
      i < |t.rows| && t.rows[i] == s.rows[i] && ValueOf(t.files, t.rows[i]) == ValueOf(s.files, s.rows[i])
  {
    if val.Stored? {
      StoreFrame(s, s.table[key], val.data, i);
    }
  }

  /** Every row but that of `key`, which has changed before, keeps its key and reads as before. */
  ghost predicate OthersRead(s: State, t: State, key: Key) {
    && t.n == s.n && t.table == s.table && t.chg == s.chg && t.safeLine == s.safeLine && |t.rows| == |s.rows|
    && key in s.chg && key in s.table && s.table[key] < s.n
    && (forall i :: 0 <= i < |s.rows| && i != s.table[key] ==>
          t.rows[i].key == s.rows[i].key && ValueOf(t.files, t.rows[i]) == ValueOf(s.files, s.rows[i]))
  }

  lemma LiveKeepsReading(m0: map<Key, Entry>, s: State, t: State, key: Key)
    requires s.n <= |s.rows| && TableOk(s.rows, s.n, s.table) && OthersRead(s, t, key) && LiveOk(m0, s)
    ensures LiveOk(m0, t)
  {
    hide ValueOf;
  }

  lemma SafeKeepsReading(m0: map<Key, Entry>, s: State, t: State, key: Key)
    requires s.n <= |s.rows| && OthersRead(s, t, key) && SafeOk(m0, s) && StartHeld(m0, s)
    ensures SafeOk(m0, t) && StartHeld(m0, t)
  {
    hide ValueOf;
    forall k | k in m0 && k in t.chg ensures exists i :: HoldsStart(m0, t, k, i) {
      var i :| HoldsStart(m0, s, k, i);
      assert HoldsStart(m0, t, k, i);
    }
  }

  lemma OthersReading(m0: map<Key, Entry>, s: State, t: State, key: Key)
    requires s.n <= |s.rows| && TableOk(s.rows, s.n, s.table) && OthersRead(s, t, key)
    requires SafeOk(m0, s) && LiveOk(m0, s) && StartHeld(m0, s)
    ensures SafeOk(m0, t) && LiveOk(m0, t) && StartHeld(m0, t)
  {
    hide OthersRead, TableOk, LiveOk, SafeOk, StartHeld;
    LiveKeepsReading(m0, s, t, key);
    SafeKeepsReading(m0, s, t, key);
  }

  lemma InPlaceStep(m0: map<Key, Entry>, s: State, key: Key, val: Payload, flags: Flags)
    requires SessionInv(m0, s) && key in s.table && key in s.chg && Fits(s.rows[s.table[key]], val)
    ensures SessionInv(m0, Overwrite(s, key, val, flags))
  {
    hide RowsOk, Tiled, Extents, SizesOf, ValueOf, SafeOk, LiveOk, StartHeld;
    var t := Overwrite(s, key, val, flags);
    OverwriteInv(s, key, val, flags);
    forall i: nat | i < |s.rows| && i != s.table[key]
      ensures t.rows[i] == s.rows[i] && ValueOf(t.files, t.rows[i]) == ValueOf(s.files, s.rows[i])
    {
      InPlaceRead(s, key, val, flags, i);
    }
    OthersReading(m0, s, t, key);
  }

  lemma MoveStep(m0: map<Key, Entry>, s: State, p: Placing, key: Key, val: Payload, flags: Flags)
    requires SessionInv(m0, s) && key in s.table
    requires PlacingOk(Touch(s, key, s.safeLine, true), p, key, val, flags, s.safeLine)
    ensures SessionInv(m0, MoveAt(Touch(s, key, s.safeLine, true), p, key, s.safeLine))
  {
    hide RowsOk, Tiled, PlacingOk, LiveOk, StartHeld, MovedPast, Extents, SizesOf;
    PlacingBounds(Touch(s, key, s.safeLine, true), p, key, val, flags, s.safeLine);
    var t := MoveAt(Touch(s, key, s.safeLine, true), p, key, s.safeLine);
    MoveInv(Touch(s, key, s.safeLine, true), p, key, val, flags, s.safeLine);
    MoveIsPast(s, p, key, val, flags);
    assert s.rows[s.table[key]].key == key;
    AfterMove(m0, s, t, key);
    AfterMoveLive(m0, s, t, key);
    AfterMoveHeld(m0, s, t, key);
  }

  lemma PlacingBounds(s: State, p: Placing, key: Key, val: Payload, flags: Flags, line: nat)
    requires PlacingOk(s, p, key, val, flags, line)
    ensures s.n <= line <= |s.rows| <= |p.c| && line <= p.d < |p.c|
  {
  }

  lemma MoveIsPast(s: State, p: Placing, key: Key, val: Payload, flags: Flags)
    requires Inv(s) && key in s.table && s.n <= s.safeLine <= |s.rows|
    requires PlacingOk(Touch(s, key, s.safeLine, true), p, key, val, flags, s.safeLine)
    ensures MovedPast(s, MoveAt(Touch(s, key, s.safeLine, true), p, key, s.safeLine), key)
  {
    MoveLayout(Touch(s, key, s.safeLine, true), p, key, val, flags, s.safeLine);
  }

  /** Rows below the safe line stay put, and a first change adds one row to SAFE. */
  ghost predicate MovedPast(s: State, t: State, key: Key) {
    && s.n <= s.safeLine <= |s.rows| && s.safeLine < |t.rows|
    && key in s.table && s.table[key] < s.n
    && t.n == s.n && t.table == s.table && t.chg == s.chg + {key}
    && t.safeLine == (if key in s.chg then s.safeLine else s.safeLine + 1)
    && (forall i :: 0 <= i < s.safeLine && i != s.table[key] ==> t.rows[i] == s.rows[i])
    && (forall i :: 0 <= i < s.safeLine ==> ValueOf(t.files, s.rows[i]) == ValueOf(s.files, s.rows[i]))
    && t.rows[s.safeLine] == s.rows[s.table[key]].(ver := s.sync)
  }

  lemma AfterMove(m0: map<Key, Entry>, s: State, t: State, key: Key)
    requires SafeOk(m0, s) && MovedPast(s, t, key) && s.rows[s.table[key]].key == key && (key !in s.chg ==> key in m0)
    ensures SafeOk(m0, t)
  {
  }

  lemma AfterMoveLive(m0: map<Key, Entry>, s: State, t: State, key: Key)
    requires LiveOk(m0, s) && MovedPast(s, t, key) && TableOk(s.rows, s.n, s.table)
    ensures LiveOk(m0, t)
  {
  }

  lemma AfterMoveHeld(m0: map<Key, Entry>, s: State, t: State, key: Key)
    requires LiveOk(m0, s) && StartHeld(m0, s) && MovedPast(s, t, key) && s.rows[s.table[key]].key == key
    ensures StartHeld(m0, t)
  {
    forall k | k in m0 && k in t.chg ensures exists i :: HoldsStart(m0, t, k, i) {
      if k in s.chg {
        var i :| HoldsStart(m0, s, k, i);
        assert HoldsStart(m0, t, k, i);
      } else {
        assert ValueOf(t.files, t.rows[s.safeLine]) == ValueOf(s.files, s.rows[s.table[key]]);
        assert HoldsStart(m0, t, k, s.safeLine);
      }
    }
  }

  lemma InsertStep(m0: map<Key, Entry>, s: State, p: Placing, key: Key, val: Payload, flags: Flags)
    requires SessionInv(m0, s) && key !in s.table
    requires var s1 := Touch(s, key, s.safeLine, true); PlacingOk(s1, p, key, val, flags, s.safeLine)
    ensures SessionInv(m0, InsertAt(Touch(s, key, s.safeLine, true), p, key, s.safeLine))
  {
    var line := s.safeLine;
    var s1 := Touch(s, key, line, true);
    var t := InsertAt(s1, p, key, line);
    InsertInv(s1, p, key, val, flags, line);
    InsertLayout(s1, p, key, val, flags, line);
    AfterInsert(m0, s, t, key);
    AfterInsertLive(m0, s, t, key);
    AfterInsertHeld(m0, s, t, key);
  }

  /** An insert turns SAFE around by one row and loses none. */
  ghost predicate InsertedBefore(s: State, t: State, key: Key) {
    && s.n <= s.safeLine <= |s.rows| && s.safeLine < |t.rows|
    && key !in s.table
    && t.n == s.n + 1 && t.table == s.table[key := s.n] && t.chg == s.chg + {key} && t.safeLine == s.safeLine + 1
    && (forall i :: 0 <= i < s.safeLine && i != s.n ==> t.rows[i] == s.rows[i])
    && (forall i :: 0 <= i < s.safeLine ==> ValueOf(t.files, s.rows[i]) == ValueOf(s.files, s.rows[i]))
    && (s.n < s.safeLine ==> t.rows[s.safeLine] == s.rows[s.n])
  }

  lemma AfterInsert(m0: map<Key, Entry>, s: State, t: State, key: Key)
    requires SafeOk(m0, s) && InsertedBefore(s, t, key)
    ensures SafeOk(m0, t)
  {
    forall i | t.n <= i < t.safeLine ensures t.rows[i] == s.rows[if i == s.safeLine then s.n else i] {
    }
  }

  lemma AfterInsertLive(m0: map<Key, Entry>, s: State, t: State, key: Key)
    requires LiveOk(m0, s) && InsertedBefore(s, t, key) && TableOk(s.rows, s.n, s.table)
    ensures LiveOk(m0, t)
  {
  }

  lemma AfterInsertHeld(m0: map<Key, Entry>, s: State, t: State, key: Key)
    requires StartHeld(m0, s) && InsertedBefore(s, t, key) && m0.Keys <= s.table.Keys
    ensures StartHeld(m0, t)
  {
    forall k | k in m0 && k in t.chg ensures exists i :: HoldsStart(m0, t, k, i) {
      var i :| HoldsStart(m0, s, k, i);
      assert HoldsStart(m0, t, k, if i == s.n then s.safeLine else i);
    }
  }

  /** Every write of the session keeps the rollback invariant. */
  lemma WriteStep(m0: map<Key, Entry>, cfg: Config, s: State, a: WriteArgs, slot: Slot)
    requires SessionInv(m0, s) && SessionWrite(cfg, s, a, slot)
    ensures SessionInv(m0, Write(cfg, s, a, slot))
  {
    hide RowsOk, Tiled, PlacingOk, StartHeld, LiveOk, Extents, SizesOf, Place, ValueOf;
    assert Line(cfg, s, true) == s.safeLine;
    match Kind(s, a)
    case Refused =>
    case Unchanged =>
    case FlagsOnly => FlagsStep(m0, s, a.key, NewFlags(s, a));
    case InPlace => InPlaceStep(m0, s, a.key, a.val, NewFlags(s, a));
    case Moved =>
      PlaceOkTouched(cfg, s, a, slot);
      MoveStep(m0, s, Place(cfg, s, slot, a.key, a.val, NewFlags(s, a)), a.key, a.val, NewFlags(s, a));
    case Inserted => InsertedStep(m0, cfg, s, a, slot);
  }

  lemma InsertedStep(m0: map<Key, Entry>, cfg: Config, s: State, a: WriteArgs, slot: Slot)
    requires SessionInv(m0, s) && SessionWrite(cfg, s, a, slot) && a.key !in s.table
    ensures SessionInv(m0, InsertNew(cfg, s, a, slot))
  {
    assert Line(cfg, s, true) == s.safeLine;
    PlaceOkTouched(cfg, s, a, slot);
    InsertStep(m0, s, Place(cfg, s, slot, a.key, a.val, NewFlags(s, a)), a.key, a.val, NewFlags(s, a));
  }

  // ---- a whole session ----

  datatype Step = Step(args: WriteArgs, slot: Slot)

  /** A session of writes, each with some legal choice of row. */
  ghost predicate Legal(cfg: Config, s: State, steps: seq<Step>)
    requires Inv(s)
    decreases |steps|
  {
    steps == [] || (
      && SessionWrite(cfg, s, steps[0].args, steps[0].slot)
      && (WriteRefines(cfg, s, steps[0].args, steps[0].slot);
          Legal(cfg, Write(cfg, s, steps[0].args, steps[0].slot), steps[1..])))
  }

  ghost function Run(cfg: Config, s: State, steps: seq<Step>): State
    requires Inv(s) && Legal(cfg, s, steps)
    decreases |steps|
  {
    if steps == [] then s
    else
      WriteRefines(cfg, s, steps[0].args, steps[0].slot);
      Run(cfg, Write(cfg, s, steps[0].args, steps[0].slot), steps[1..])
  }

  lemma {:induction false} RunKeeps(m0: map<Key, Entry>, cfg: Config, s: State, steps: seq<Step>)
    requires SessionInv(m0, s) && Legal(cfg, s, steps)
    ensures SessionInv(m0, Run(cfg, s, steps))
    decreases |steps|
  {
    if steps != [] {
      WriteStep(m0, cfg, s, steps[0].args, steps[0].slot);
      RunKeeps(m0, cfg, Write(cfg, s, steps[0].args, steps[0].slot), steps[1..]);
    }
  }

  // ---- rolling back ----

  ghost predicate FirstHolds(s: State, k: Key, val: Payload)
    requires s.n <= |s.rows|
  {
    var at := FirstParked(s.rows, s.n, k);
    at.Some? && at.value < |s.rows| && ValueOf(s.files, s.rows[at.value]) == val
  }

  /** The SAFE row of a changed key comes before any other parked row of that key. */
  lemma SafeComesFirst(m0: map<Key, Entry>, s: State, k: Key)
    requires SessionInv(m0, s) && k in m0 && k in s.chg
    ensures FirstHolds(s, k, m0[k].val)
  {
    var i :| HoldsStart(m0, s, k, i);
    FirstParkedAt(s.rows, s.n, k, i);
  }

  /** f_unwrite passes over locked records and over the empty key. */
  predicate Swappable(k: Key, e: Entry) { k != "" && !WriteLocked(e.flags) }

  /** The map with the listed keys back at their session-start values, as far as they may be swapped. */
  ghost function RolledBack(m0: map<Key, Entry>, m: map<Key, Entry>, keys: set<Key>): map<Key, Entry> {
    map k | k in m :: if k in keys && k in m0 && Swappable(k, m[k]) then Entry(m0[k].val, m[k].flags) else m[k]
  }

  /** Half way through: every key but those in `todo` reads as it shall, and for those the first parked row
      holds what they shall read. */
  ghost predicate RollInv(goal: map<Key, Entry>, s: State, todo: set<Key>) {
    && Inv(s) && Abs(s).Keys == goal.Keys && todo <= goal.Keys
    && (forall k :: k in goal && k !in todo ==> Abs(s)[k] == goal[k])
    && (forall k :: k in todo ==> goal[k].flags == Abs(s)[k].flags
                                  && if Swappable(k, goal[k]) then FirstHolds(s, k, goal[k].val) else goal[k] == Abs(s)[k])
  }

  lemma RollStarts(m0: map<Key, Entry>, s: State, todo: set<Key>)
    requires SessionInv(m0, s) && todo <= m0.Keys * s.chg
    ensures RollInv(RolledBack(m0, Abs(s), todo), s, todo)
  {
    hide TableOk, RowsOk, Tiled, Extents, SizesOf, EntryOf, SafeOk, LiveOk, StartHeld, FirstHolds;
    var goal := RolledBack(m0, Abs(s), todo);
    assert Abs(s).Keys == s.table.Keys;
    forall k | k in todo && Swappable(k, goal[k]) ensures FirstHolds(s, k, goal[k].val) {
      SafeComesFirst(m0, s, k);
    }
  }

  lemma OthersHold(s: State, key: Key, at: nat, k: Key, val: Payload)
    requires key in s.table && s.table[key] < s.n <= at < |s.rows| && k != key && s.rows[at].key == key
    requires s.rows[s.table[key]].key == key && FirstHolds(s, k, val)
    ensures FirstHolds(UnwriteAt(s, key, at), k, val)
  {
    var u := UnwriteAt(s, key, at);
    FirstParkedIs(s.rows, s.n, k);
    assert forall i :: s.n <= i < |s.rows| ==> u.rows[i].key == s.rows[i].key;
    FirstParkedAt(u.rows, u.n, k, FirstParked(s.rows, s.n, k).value);
  }

  lemma RollAt(goal: map<Key, Entry>, s: State, todo: set<Key>, key: Key, at: nat)
    requires RollInv(goal, s, todo) && key in todo && s.n <= at < |s.rows| && s.rows[at].key == key
    requires ValueOf(s.files, s.rows[at]) == goal[key].val && Swappable(key, goal[key])
    ensures RollInv(goal, UnwriteAt(s, key, at), todo - {key})
  {
    hide RowsOk, Tiled, Extents, SizesOf, ValueOf, FirstHolds, EntryOf;
    var u := UnwriteAt(s, key, at);
    UnwriteInv(s, key, at);
    assert Abs(u)[key] == goal[key];
    forall k | k in todo - {key} && Swappable(k, goal[k]) ensures FirstHolds(u, k, goal[k].val) {
      OthersHold(s, key, at, k, goal[k].val);
    }
  }

  /** One f_unwrite brings its key where it shall be and disturbs no other. */
  lemma RollOne(goal: map<Key, Entry>, s: State, todo: set<Key>, key: Key)
    requires RollInv(goal, s, todo) && key in todo
    ensures RollInv(goal, Unwrite(s, key, None), todo - {key})
  {
    hide RowsOk, Tiled, Extents, SizesOf, ValueOf, EntryOf;
    LiveFlags(s, key);
    if Swappable(key, goal[key]) {
      UnwriteFirst(s, key);
      RollAt(goal, s, todo, key, FirstParked(s.rows, s.n, key).value);
    }
  }

  lemma LiveFlags(s: State, key: Key)
    requires Inv(s) && key in Abs(s)
    ensures key in s.table && Abs(s)[key].flags == s.rows[s.table[key]].flags
  {
  }

  ghost function UnwriteAll(s: State, keys: seq<Key>): State
    requires Inv(s)
    decreases |keys|
  {
    if keys == [] then s
    else
      UnwriteRefines(s, keys[0], None);
      UnwriteAll(Unwrite(s, keys[0], None), keys[1..])
  }

  predicate NoneTwice(keys: seq<Key>) {
    forall i, j :: 0 <= i < j < |keys| ==> keys[i] != keys[j]
  }

  /** The records end up as `goal` says, whatever the order of the list. */
  lemma {:induction false} RollAll(goal: map<Key, Entry>, s: State, keys: seq<Key>)
    requires RollInv(goal, s, set k | k in keys) && NoneTwice(keys)
    ensures Inv(UnwriteAll(s, keys)) && Abs(UnwriteAll(s, keys)) == goal
    decreases |keys|
  {
    hide Unwrite, RollInv, Inv, Abs;
    var todo := set k | k in keys;
    RollSound(goal, s, todo);
    if keys != [] {
      RollOne(goal, s, todo, keys[0]);
      assert todo - {keys[0]} == set k | k in keys[1..];
      RollAll(goal, Unwrite(s, keys[0], None), keys[1..]);
    } else {
      assert todo == {};
    }
  }

  lemma RollSound(goal: map<Key, Entry>, s: State, todo: set<Key>)
    requires RollInv(goal, s, todo)
    ensures Inv(s) && (todo == {} ==> Abs(s) == goal)
  {
  }

  /** Session rollback: after any run of writes under REVERT, unwriting any of the changed keys of the session start,
      in any order, gives each its session-start value back, unless it is locked or empty, and changes nothing else. */
  lemma SessionRollback(cfg: Config, s0: State, steps: seq<Step>, keys: seq<Key>)
    requires Inv(s0) && Legal(cfg, NewSession(s0), steps) && NoneTwice(keys)
    requires forall k :: k in keys ==> k in s0.table && k in Run(cfg, NewSession(s0), steps).chg
    ensures var s := Run(cfg, NewSession(s0), steps);
      && Inv(s) && Inv(UnwriteAll(s, keys))
      && Abs(UnwriteAll(s, keys)) == RolledBack(Abs(s0), Abs(s), set k | k in keys)
  {
    hide SessionInv, Unwrite;
    var s := Run(cfg, NewSession(s0), steps);
    SessionStarts(s0);
    RunKeeps(Abs(s0), cfg, NewSession(s0), steps);
    SessionSound(Abs(s0), s);
    assert Abs(s0).Keys == s0.table.Keys;
    RollStarts(Abs(s0), s, set k | k in keys);
    RollAll(RolledBack(Abs(s0), Abs(s), set k | k in keys), s, keys);
  }

  lemma SessionSound(m0: map<Key, Entry>, s: State)
    requires SessionInv(m0, s)
    ensures Inv(s) && m0.Keys <= Abs(s).Keys
    ensures forall k :: k in m0 && k !in s.chg ==> Abs(s)[k].val == m0[k].val
  {
    hide ValueOf;
    assert Abs(s).Keys == s.table.Keys;
  }

  /** When all changed keys are listed, every record of the session start has its value back,
      but for changed records that are locked or have the empty key. */
  lemma SessionRestored(cfg: Config, s0: State, steps: seq<Step>, keys: seq<Key>)
    requires Inv(s0) && Legal(cfg, NewSession(s0), steps) && NoneTwice(keys)
    requires forall k :: k in keys <==> k in s0.table && k in Run(cfg, NewSession(s0), steps).chg
    ensures Inv(Run(cfg, NewSession(s0), steps)) && Inv(UnwriteAll(Run(cfg, NewSession(s0), steps), keys))
    ensures var m := Abs(Run(cfg, NewSession(s0), steps));
      AllBack(Abs(s0), m, Run(cfg, NewSession(s0), steps).chg, Abs(UnwriteAll(Run(cfg, NewSession(s0), steps), keys)))
  {
    hide SessionInv, Unwrite, TableOk, RowsOk, Tiled, Abs;
    var s := Run(cfg, NewSession(s0), steps);
    SessionRollback(cfg, s0, steps, keys);
    SessionStarts(s0);
    RunKeeps(Abs(s0), cfg, NewSession(s0), steps);
    SessionSound(Abs(s0), s);
    SameKeys(s0);
  }

  lemma SameKeys(s: State)
    requires Inv(s)
    ensures Abs(s).Keys == s.table.Keys
  {
  }

  /** Every record of `m0` reads its old value in `t`, unless it has changed and may not be swapped. */
  ghost predicate AllBack(m0: map<Key, Entry>, m: map<Key, Entry>, chg: set<Key>, t: map<Key, Entry>) {
    forall k :: k in m0 ==>
      k in m && k in t && (t[k].val == m0[k].val || (k in chg && !Swappable(k, m[k])))
  }
}
