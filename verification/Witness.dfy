/** Runs from the empty database after which an undo finds an older version than one would expect. */
module Witness {
  import opened Bytes
  import opened Rows
  import opened Index
  import opened Keeping
  import opened Newest
  import opened Runs

  /** A row that holds its value itself. */
  function Inlined(key: Key, bits: nat, ver: nat): Row {
    Row(key, 0, bits, 0, 1, ver, NO_FLAGS)
  }

  /** A write under REVERT for which no discarded row is found. */
  function SetTo(key: Key, bits: nat): WriteArgs {
    WriteArgs(key, Inline(0, bits, 1), None, true, true, false, false, false)
  }

  /** The states a run passes through, one step after the other. */
  ghost predicate Trace(cfg: Config, states: seq<State>, ops: seq<Op>) {
    |states| == |ops| + 1
    && forall i :: 0 <= i < |ops| ==>
         Inv(states[i]) && LegalOp(cfg, states[i], ops[i]) && Step(cfg, states[i], ops[i]) == states[i + 1]
  }

  lemma {:induction false} TraceRuns(cfg: Config, states: seq<State>, ops: seq<Op>)
    requires Trace(cfg, states, ops) && Inv(states[0])
    ensures LegalRun(cfg, states[0], ops) && Run(cfg, states[0], ops) == states[|ops|]
    decreases |ops|
  {
    hide Inv, LegalOp, Step;
    if ops != [] {
      StepRefines(cfg, states[0], ops[0]);
      assert Trace(cfg, states[1..], ops[1..]);
      TraceRuns(cfg, states[1..], ops[1..]);
    }
  }

  ghost predicate Sizeless(rows: seq<Row>) {
    forall i :: 0 <= i < |rows| ==> rows[i].rowSize == 0
  }

  /** A state whose rows hold all values themselves. */
  ghost predicate Rowed(s: State) {
    s.n <= |s.rows| && TableOk(s.rows, s.n, s.table) && s.files == map[] && Sizeless(s.rows)
  }

  lemma {:induction false} NoneOwned(rows: seq<Row>, n: nat)
    requires n <= |rows| && Sizeless(rows)
    ensures ExtentsUpTo(rows, n) == multiset{}
  {
    if n > 0 {
      NoneOwned(rows, n - 1);
    }
  }

  lemma RowedIsSound(s: State)
    requires Rowed(s)
    ensures Inv(s)
  {
    NoneOwned(s.rows, |s.rows|);
  }

  // ---- revert does not take the newest version ----

  function FourSessions(): seq<Op> {
    [OpWrite(SetTo("a", 1), Append(0)), OpWrite(SetTo("b", 1), Append(0)), OpSession,
     OpWrite(SetTo("a", 2), Append(0)), OpSession,
     OpWrite(SetTo("a", 3), Append(0)), OpSession,
     OpWrite(SetTo("b", 2), Append(0))]
  }

  function FourSessionState(i: nat): State {
    var none, one, two := map[], map["a" := 0], map["a" := 0, "b" := 1];
    var r1 := [Inlined("a", 1, 0), Inlined("b", 1, 1)];
    var r2 := [Inlined("a", 2, 2), Inlined("b", 1, 1), Inlined("a", 1, 2)];
    var r3 := [Inlined("a", 3, 3), Inlined("b", 1, 1), Inlined("a", 2, 3), Inlined("a", 1, 2)];
    var r4 := [Inlined("a", 3, 3), Inlined("b", 2, 4), Inlined("b", 1, 4), Inlined("a", 1, 2), Inlined("a", 2, 3)];
    match i
    case 0 => State([], 0, 0, {}, none, map[], 0)
    case 1 => State([Inlined("a", 1, 0)], 1, 1, {"a"}, one, map[], 1)
    case 2 => State(r1, 2, 2, {"a", "b"}, two, map[], 2)
    case 3 => State(r1, 2, 2, {}, two, map[], 2)
    case 4 => State(r2, 2, 3, {"a"}, two, map[], 3)
    case 5 => State(r2, 2, 2, {}, two, map[], 3)
    case 6 => State(r3, 2, 3, {"a"}, two, map[], 4)
    case 7 => State(r3, 2, 2, {}, two, map[], 4)
    case _ => State(r4, 2, 3, {"b"}, two, map[], 5)
  }

  /** A value that is not the one stored takes a row of its own, behind all others. */
  lemma FreshMove(cfg: Config, s: State, key: Key, bits: nat)
    requires ConfigOk(cfg) && cfg.minSafe == 0 && Rowed(s) && s.safeLine == s.n && s.chg == {}
    requires key in s.table && s.rows[s.table[key]].flags == NO_FLAGS && s.rows[s.table[key]].offset != bits
    ensures Inv(s) && LegalOp(cfg, s, OpWrite(SetTo(key, bits), Append(0)))
    ensures Step(cfg, s, OpWrite(SetTo(key, bits), Append(0))) ==
      State(Shift(s.rows + [FreeRow(0, 0, 0)], |s.rows|, s.n, s.table[key], s.rows[s.table[key]].(ver := s.sync),
                  Inlined(key, bits, s.sync)),
            s.n, s.n + 1, {key}, s.table, map[], Next(s.sync))
  {
    hide Extents, Tiled, Shift;
    RowedIsSound(s);
    assert {} + {key} == {key};
  }

  /** A new key in an index without history. */
  lemma FirstInsert(cfg: Config, s: State, key: Key, bits: nat)
    requires ConfigOk(cfg) && cfg.minSafe == 0 && Rowed(s) && s.safeLine == s.n == |s.rows| && key !in s.chg
    requires key !in s.table
    ensures Inv(s) && LegalOp(cfg, s, OpWrite(SetTo(key, bits), Append(0)))
    ensures Step(cfg, s, OpWrite(SetTo(key, bits), Append(0))) ==
      State(s.rows + [Inlined(key, bits, s.sync)], s.n + 1, s.n + 1, s.chg + {key}, s.table[key := s.n], map[], Next(s.sync))
  {
    hide Extents, Tiled;
    RowedIsSound(s);
    var c := s.rows + [FreeRow(0, 0, 0)];
    assert Shift(c, s.n, s.n, s.n, c[s.n], Inlined(key, bits, s.sync)) == s.rows + [Inlined(key, bits, s.sync)];
  }

  lemma SessionStep(cfg: Config, s: State)
    requires Rowed(s)
    ensures Inv(s) && LegalOp(cfg, s, OpSession) && Step(cfg, s, OpSession) == s.(safeLine := s.n, chg := {})
  {
    RowedIsSound(s);
  }

  lemma FourSessionMove(cfg: Config, i: nat)
    requires ConfigOk(cfg) && cfg.minSafe == 0 && (i == 3 || i == 5 || i == 7)
    ensures var s, op := FourSessionState(i), FourSessions()[i];
      Inv(s) && LegalOp(cfg, s, op) && Step(cfg, s, op) == FourSessionState(i + 1)
  {
    hide Inv, Extents, Tiled, Step, LegalOp;
    var s := FourSessionState(i);
    match i {
      case 3 => FreshMove(cfg, s, "a", 2);
      case 5 => FreshMove(cfg, s, "a", 3);
      case _ => FreshMove(cfg, s, "b", 2);
    }
  }

  lemma FourSessionInsert(cfg: Config, i: nat)
    requires ConfigOk(cfg) && cfg.minSafe == 0 && (i == 0 || i == 1)
    ensures var s, op := FourSessionState(i), FourSessions()[i];
      Inv(s) && LegalOp(cfg, s, op) && Step(cfg, s, op) == FourSessionState(i + 1)
  {
    hide Inv, Extents, Tiled, Step, LegalOp;
    FirstInsert(cfg, FourSessionState(i), if i == 0 then "a" else "b", 1);
  }

  lemma FourSessionPause(cfg: Config, i: nat)
    requires i == 2 || i == 4 || i == 6
    ensures var s, op := FourSessionState(i), FourSessions()[i];
      Inv(s) && LegalOp(cfg, s, op) && Step(cfg, s, op) == FourSessionState(i + 1)
  {
    hide Inv, Extents, Tiled, Step, LegalOp;
    SessionStep(cfg, FourSessionState(i));
  }

  lemma FourSessionStep(cfg: Config, i: nat)
    requires ConfigOk(cfg) && cfg.minSafe == 0 && i < |FourSessions()|
    ensures var s, op := FourSessionState(i), FourSessions()[i];
      Inv(s) && LegalOp(cfg, s, op) && Step(cfg, s, op) == FourSessionState(i + 1)
  {
    hide Inv, Extents, Tiled, Step, LegalOp, FourSessionState;
    if i <= 1 {
      FourSessionInsert(cfg, i);
    } else if i % 2 == 0 {
      FourSessionPause(cfg, i);
    } else {
      FourSessionMove(cfg, i);
    }
  }

  /** The run, cut off after `n` steps. */
  lemma FourSessionsRun(cfg: Config, n: nat)
    requires ConfigOk(cfg) && cfg.minSafe == 0 && n <= |FourSessions()|
    ensures Inv(FourSessionState(0)) && Abs(FourSessionState(0)) == map[]
    ensures LegalRun(cfg, FourSessionState(0), FourSessions()[..n])
    ensures Run(cfg, FourSessionState(0), FourSessions()[..n]) == FourSessionState(n)
  {
    hide Inv, Step, LegalOp, LegalRun, Run;
    EmptyIsSound();
    var ops := FourSessions();
    var states := seq(n + 1, i requires 0 <= i => FourSessionState(i));
    forall i | 0 <= i < n
      ensures Inv(states[i]) && LegalOp(cfg, states[i], ops[i]) && Step(cfg, states[i], ops[i]) == states[i + 1]
    {
      FourSessionStep(cfg, i);
    }
    TraceRuns(cfg, states, ops[..n]);
  }

  /** An undo of "a" finds row `at`, which holds `bits` and may or may not be the newest one. */
  ghost predicate Finds(s: State, at: nat, bits: nat, newest: bool) {
    && Inv(s) && FirstParked(s.rows, s.n, "a") == Some(at)
    && Recalled(s, OpUnwrite("a", None)) == Some(Entry(Inline(0, bits, 1), NO_FLAGS))
    && (NewestFirst(s.rows, s.n, "a") <==> newest)
  }

  lemma FindsIs(s: State, at: nat, bits: nat, newest: nat)
    requires Rowed(s) && s.n <= at < |s.rows| && s.rows[at] == Inlined("a", bits, s.rows[at].ver)
    requires forall i :: s.n <= i < at ==> s.rows[i].key != "a"
    requires Latest(s.rows, s.n, "a", newest)
    ensures Finds(s, at, bits, at == newest)
  {
    RowedIsSound(s);
    FirstParkedAt(s.rows, s.n, "a", at);
    LatestIsNewest(s.rows, s.n, "a", newest);
  }

  /** From `s` to `t` the two parked versions of "a" change places: in `s` an undo of "a" finds the newer one,
      in `t` the older one. */
  ghost predicate TurnedRound(s: State, t: State) {
    && |s.rows| == 4 && s.rows[2] == Inlined("a", 2, 3) && s.rows[3] == Inlined("a", 1, 2)
    && |t.rows| == 5 && t.rows[3] == s.rows[3] && t.rows[4] == s.rows[2]
    && Finds(s, 2, 2, true) && Finds(t, 3, 1, false)
  }

  lemma BeforeTurn()
    ensures Finds(FourSessionState(7), 2, 2, true)
  {
    hide Finds;
    FindsIs(FourSessionState(7), 2, 2, 2);
  }

  lemma AfterTurn()
    ensures Finds(FourSessionState(8), 3, 1, false)
  {
    hide Finds;
    FindsIs(FourSessionState(8), 3, 1, 4);
  }

  lemma FourthTurns()
    ensures TurnedRound(FourSessionState(7), FourSessionState(8))
  {
    hide Finds;
    BeforeTurn();
    AfterTurn();
  }

  /** In the fourth session a change of "b" turns the history of "a" round. */
  lemma NewestIsNotFirst(cfg: Config)
    requires ConfigOk(cfg) && cfg.minSafe == 0
    ensures Inv(FourSessionState(0)) && Abs(FourSessionState(0)) == map[]
    ensures LegalRun(cfg, FourSessionState(0), FourSessions()) && LegalRun(cfg, FourSessionState(0), FourSessions()[..7])
    ensures TurnedRound(Run(cfg, FourSessionState(0), FourSessions()[..7]), Run(cfg, FourSessionState(0), FourSessions()))
  {
    hide Inv, Step, LegalOp, LegalRun, Run, TurnedRound;
    FourSessionsRun(cfg, 7);
    FourSessionsRun(cfg, 8);
    assert FourSessions()[..8] == FourSessions();
    FourthTurns();
  }

  // ---- undelete does not bring back what was deleted ----

  function TwoVersions(): seq<Op> {
    [OpWrite(SetTo("a", 1), Append(0)), OpSession, OpWrite(SetTo("a", 2), Append(0)),
     OpDelete("a", true, false), OpUndelete("a", None, true)]
  }

  function TwoVersionState(i: nat): State {
    var one := map["a" := 0];
    match i
    case 0 => State([], 0, 0, {}, map[], map[], 0)
    case 1 => State([Inlined("a", 1, 0)], 1, 1, {"a"}, one, map[], 1)
    case 2 => State([Inlined("a", 1, 0)], 1, 1, {}, one, map[], 1)
    case 3 => State([Inlined("a", 2, 1), Inlined("a", 1, 1)], 1, 2, {"a"}, one, map[], 2)
    case 4 => State([Inlined("a", 1, 1), Inlined("a", 2, 2)], 0, 2, {"a"}, map[], map[], 3)
    case _ => State([Inlined("a", 1, 3), Inlined("a", 2, 2)], 1, 2, {}, one, map[], 4)
  }

  lemma TwoVersionStep(cfg: Config, i: nat)
    requires ConfigOk(cfg) && cfg.minSafe == 0 && i < |TwoVersions()|
    ensures var s, op := TwoVersionState(i), TwoVersions()[i];
      Inv(s) && LegalOp(cfg, s, op) && Step(cfg, s, op) == TwoVersionState(i + 1)
  {
    hide Inv, Extents, Tiled, FirstParked;
    var s, op := TwoVersionState(i), TwoVersions()[i];
    RowedIsSound(s);
    match i {
      case 0 => FirstInsert(cfg, s, "a", 1);
      case 1 =>
      case 2 => FreshMove(cfg, s, "a", 2);
      case 3 =>
      case _ => FirstParkedAt(s.rows, 0, "a", 0);
    }
  }

  lemma TwoVersionsRun(cfg: Config, n: nat)
    requires ConfigOk(cfg) && cfg.minSafe == 0 && n <= |TwoVersions()|
    ensures Inv(TwoVersionState(0)) && Abs(TwoVersionState(0)) == map[]
    ensures LegalRun(cfg, TwoVersionState(0), TwoVersions()[..n])
    ensures Run(cfg, TwoVersionState(0), TwoVersions()[..n]) == TwoVersionState(n)
  {
    hide Inv, Step, LegalOp, LegalRun, Run;
    EmptyIsSound();
    var ops := TwoVersions();
    var states := seq(n + 1, i requires 0 <= i => TwoVersionState(i));
    forall i | 0 <= i < n
      ensures Inv(states[i]) && LegalOp(cfg, states[i], ops[i]) && Step(cfg, states[i], ops[i]) == states[i + 1]
    {
      TwoVersionStep(cfg, i);
    }
    TraceRuns(cfg, states, ops[..n]);
  }

  lemma OnlyRecord(s: State, bits: nat)
    requires s.n == 1 && s.table == map["a" := 0] && s.files == map[] && Sizeless(s.rows)
    requires |s.rows| == 2 && s.rows[0] == Inlined("a", bits, s.rows[0].ver)
    ensures Inv(s) && Abs(s) == map["a" := Entry(Inline(0, bits, 1), NO_FLAGS)]
  {
    RowedIsSound(s);
  }

  /** "a" reads 2 when it is deleted, and 1 once it is undeleted: an older version was parked in this session. */
  lemma UndeletedIsOlder(cfg: Config)
    requires ConfigOk(cfg) && cfg.minSafe == 0
    ensures Inv(TwoVersionState(0)) && Abs(TwoVersionState(0)) == map[]
    ensures LegalRun(cfg, TwoVersionState(0), TwoVersions()) && LegalRun(cfg, TwoVersionState(0), TwoVersions()[..3])
    ensures var s, t := Run(cfg, TwoVersionState(0), TwoVersions()[..3]), Run(cfg, TwoVersionState(0), TwoVersions());
      && Inv(s) && Abs(s) == map["a" := Entry(Inline(0, 2, 1), NO_FLAGS)]
      && Inv(t) && Abs(t) == map["a" := Entry(Inline(0, 1, 1), NO_FLAGS)]
  {
    hide Inv, Abs, LegalOp, Step, LegalRun, Run;
    TwoVersionsRun(cfg, 3);
    TwoVersionsRun(cfg, 5);
    assert TwoVersions()[..5] == TwoVersions();
    OnlyRecord(TwoVersionState(3), 2);
    OnlyRecord(TwoVersionState(5), 1);
  }

  // ---- a key changed, deleted and inserted again ----

  function Reinserting(): seq<Op> {
    [OpWrite(SetTo("a", 2), Append(0)), OpDelete("a", true, false), OpWrite(SetTo("a", 3), Append(0))]
  }

  function Reinserted(): State {
    State([Inlined("a", 3, 3), Inlined("a", 2, 2), Inlined("a", 1, 1)], 1, 2, {"a"}, map["a" := 0], map[], 4)
  }

  lemma ReinsertStep(cfg: Config)
    requires ConfigOk(cfg) && cfg.minSafe == 0
    ensures var s, op := TwoVersionState(4), OpWrite(SetTo("a", 3), Append(0));
      Inv(s) && LegalOp(cfg, s, op) && Step(cfg, s, op) == Reinserted()
  {
    hide Extents, Tiled;
    RowedIsSound(TwoVersionState(4));
  }

  lemma ReinsertRuns(cfg: Config)
    requires ConfigOk(cfg) && cfg.minSafe == 0
    ensures Inv(TwoVersionState(1)) && LegalRun(cfg, NewSession(TwoVersionState(1)), Reinserting())
    ensures Run(cfg, NewSession(TwoVersionState(1)), Reinserting()) == Reinserted()
  {
    hide Inv, Step, LegalOp, LegalRun, Run, TwoVersionState;
    TwoVersionStep(cfg, 1);
    TwoVersionStep(cfg, 2);
    TwoVersionStep(cfg, 3);
    ReinsertStep(cfg);
    TraceRuns(cfg, [TwoVersionState(2), TwoVersionState(3), TwoVersionState(4), Reinserted()], Reinserting());
    SecondSession();
  }

  lemma SecondSession()
    ensures NewSession(TwoVersionState(1)) == TwoVersionState(2)
  {
  }

  /** What no careful session does: "a" is changed, deleted and inserted again, and the version the session started with
      lies where the next write may reuse its row. */
  lemma ReinsertExposes(cfg: Config)
    requires ConfigOk(cfg) && cfg.minSafe == 0
    ensures var s0 := TwoVersionState(1);
      && Inv(s0) && LegalRun(cfg, NewSession(s0), Reinserting()) && "a" in s0.table && s0.table["a"] < |s0.rows|
      && var t := Run(cfg, NewSession(s0), Reinserting());
         && t.n <= |t.rows| && !(exists i: nat :: StoredAt(s0, t, "a", i))
         && Line(cfg, t, true) == 2 && |t.rows| == 3 && VersionOf(t.rows[2]) == VersionOf(s0.rows[0])
  {
    hide Inv, LegalRun, Run;
    ReinsertRuns(cfg);
  }
}
