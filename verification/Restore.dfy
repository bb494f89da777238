/** Asking versions back: what unremove, unmodify and revert promise about the rows they scan. */
module Restore {
  import opened Bytes
  import opened Rows
  import opened Index
  import opened Refine

  /** A row a caller may ask back: of the key, and of the wanted session when one is named. */
  predicate Matches(r: Row, key: Key, version: Option<nat>) {
    r.key == key && (version.None? || r.ver == version.value)
  }

  function Parked(s: State): seq<Row>
    requires s.n <= |s.rows|
  {
    s.rows[s.n..]
  }

  ghost predicate HasMatch(parked: seq<Row>, key: Key, version: Option<nat>) {
    exists r :: r in parked && Matches(r, key, version)
  }

  ghost predicate NoMatch(rows: seq<Row>, from: nat, to: nat, key: Key, version: Option<nat>)
    requires to <= |rows|
  {
    forall i :: from <= i < to ==> !Matches(rows[i], key, version)
  }

  /** No row scanned so far is wanted. */
  ghost predicate ScanClear(rows: seq<Row>, from: nat, to: nat, keys: set<Key>, version: Option<nat>)
    requires to <= |rows|
  {
    forall k :: k in keys ==> NoMatch(rows, from, to, k, version)
  }

  /** The entry is that of some matching parked row. */
  ghost predicate Recovered(files: Files, parked: seq<Row>, key: Key, version: Option<nat>, e: Entry) {
    exists r :: r in parked && Matches(r, key, version) && e.val == ValueOf(files, r)
  }

  // ---- bringing deleted keys back ----

  /** But for the keys brought back, the parked rows are the ones there were, in whatever order. */
  ghost predicate SameExcept(back: set<Key>, a: seq<Row>, b: seq<Row>) {
    forall r: Row :: r.key !in back ==> multiset(a)[r] == multiset(b)[r]
  }

  lemma InBoth(back: set<Key>, a: seq<Row>, b: seq<Row>, r: Row)
    requires SameExcept(back, a, b) && r.key !in back
    ensures r in a <==> r in b
  {
    assert r in multiset(a) <==> r in multiset(b);
  }

  lemma TakeOut(p: seq<Row>, at: nat, via: nat)
    requires via <= at < |p|
    ensures multiset(Closed(p, at, via)) == multiset(p) - multiset{p[at]}
  {
    var left := Closed(p, at, via);
    var a := p[at := p[via]];
    var q := a[via := p[0]];
    assert a[via] == p[via];
    assert q == [p[0]] + left;
    forall t | true ensures multiset(left)[t] == (multiset(p) - multiset{p[at]})[t] {
      assert multiset(a)[t] == (multiset(p) - multiset{p[at]} + multiset{p[via]})[t];
      assert multiset(q)[t] == (multiset(a) - multiset{p[via]} + multiset{p[0]})[t];
      assert multiset(q)[t] == (multiset{p[0]} + multiset(left))[t];
    }
  }

  /** The parked rows once the gap is closed: the first one has moved into the hole, through the line. */
  function Closed(p: seq<Row>, at: nat, via: nat): seq<Row>
    requires via <= at < |p|
  {
    p[at := p[via]][via := p[0]][1..]
  }

  lemma ClosesUp(rows: seq<Row>, n: nat, at: nat, via: nat, back: Row)
    requires n <= via <= at < |rows|
    ensures rows[n..][at - n] == rows[at]
    ensures rows[at := rows[via]][via := rows[n]][n := back][n + 1..] == Closed(rows[n..], at - n, via - n)
  {
  }

  lemma UndeletedRows(s: State, key: Key, at: nat, revert: bool, via: nat)
    requires s.n <= at < |s.rows| && via == (if at < (if revert then Clamp(s) else s.n) then s.n else if revert then Clamp(s) else s.n)
    ensures s.n <= via <= at && UndeleteAt(s, key, at, revert).n == s.n + 1
    ensures UndeleteAt(s, key, at, revert).rows == s.rows[at := s.rows[via]][via := s.rows[s.n]][s.n := s.rows[at].(ver := s.sync)]
  {
    if via == s.n {
      assert s.rows[at := s.rows[via]][via := s.rows[s.n]][s.n := s.rows[at].(ver := s.sync)]
          == s.rows[at := s.rows[via]][s.n := s.rows[at].(ver := s.sync)];
    }
  }

  lemma ParkedAfter(s: State, key: Key, at: nat, revert: bool, via: nat)
    requires s.n <= at < |s.rows| && via == (if at < (if revert then Clamp(s) else s.n) then s.n else if revert then Clamp(s) else s.n)
    ensures s.n <= via <= at && UndeleteAt(s, key, at, revert).n <= |UndeleteAt(s, key, at, revert).rows|
    ensures Parked(UndeleteAt(s, key, at, revert)) == Closed(Parked(s), at - s.n, via - s.n)
    ensures Parked(s)[at - s.n] == s.rows[at]
  {
    hide UndeleteAt, Closed;
    UndeletedRows(s, key, at, revert, via);
    ClosesUp(s.rows, s.n, at, via, s.rows[at].(ver := s.sync));
  }

  /** Bringing one row back takes just that row out of the parked ones. */
  lemma UndeleteParked(s: State, key: Key, at: nat, revert: bool)
    requires s.n <= at < |s.rows|
    ensures var t := UndeleteAt(s, key, at, revert);
      && t.n <= |t.rows|
      && multiset(Parked(t)) == multiset(Parked(s)) - multiset{s.rows[at]}
  {
    hide UndeleteAt, Closed;
    var line := if revert then Clamp(s) else s.n;
    var via := if at < line then s.n else line;
    ParkedAfter(s, key, at, revert, via);
    TakeOut(Parked(s), at - s.n, via - s.n);
  }

  /** Half way through: what is still wanted is still there, what was taken off the list has come back. */
  ghost predicate RestoreInv(s0: State, s: State, keys: set<Key>, add: set<Key>, restored: set<Key>, version: Option<nat>) {
    && Inv(s0) && Inv(s) && s.files == s0.files && Versions(s.rows) == Versions(s0.rows)
    && keys !! s0.table.Keys && add <= keys && restored <= keys - add
    && s.table.Keys == s0.table.Keys + restored
    && SameExcept(restored, Parked(s0), Parked(s))
    && (forall k :: k in keys - add ==> HasMatch(Parked(s0), k, version) && (k in restored <==> k != ""))
    && (forall k :: k in s0.table ==> Abs(s)[k] == Abs(s0)[k])
    && (forall k :: k in restored ==> Recovered(s0.files, Parked(s0), k, version, Abs(s)[k]))
  }

  /** Exactly the wanted keys with a matching parked row are live again, each with the value of such a row;
      the empty key alone stays parked. No other record changes, and no version is lost. */
  ghost predicate RestoredAll(s0: State, s: State, keys: set<Key>, restored: set<Key>, version: Option<nat>) {
    && Inv(s0) && Inv(s) && Versions(s.rows) == Versions(s0.rows)
    && (forall k :: k in restored <==> k in keys && k != "" && HasMatch(Parked(s0), k, version))
    && s.files == s0.files && s.table.Keys == s0.table.Keys + restored
    && SameExcept(restored, Parked(s0), Parked(s))
    && (forall k :: k in s0.table ==> Abs(s)[k] == Abs(s0)[k])
    && (forall k :: k in restored ==> Recovered(s0.files, Parked(s0), k, version, Abs(s)[k]))
  }

  lemma RestoreStarts(s: State, keys: set<Key>, version: Option<nat>)
    requires Inv(s) && keys !! s.table.Keys
    ensures RestoreInv(s, s, keys, keys, {}, version)
  {
  }

  lemma ScanSkips(rows: seq<Row>, from: nat, at: nat, keys: set<Key>, fewer: set<Key>, version: Option<nat>)
    requires at < |rows| && ScanClear(rows, from, at, keys, version) && fewer <= keys
    requires rows[at].key in fewer ==> !Matches(rows[at], rows[at].key, version)
    ensures ScanClear(rows, from, at + 1, fewer, version)
  {
  }

  /** One row found: the wanted key comes off the list, and back to life unless it is the empty key. */
  lemma RestoreStep(s0: State, s: State, keys: set<Key>, add: set<Key>, restored: set<Key>, version: Option<nat>,
                    at: nat, revert: bool)
    requires RestoreInv(s0, s, keys, add, restored, version)
    requires s.n <= at < |s.rows| && s.rows[at].key in add && Matches(s.rows[at], s.rows[at].key, version)
    ensures var key := s.rows[at].key;
      if key == "" then Undelete(s, key, Some(at), revert) == s && RestoreInv(s0, s, keys, add - {key}, restored, version)
      else Undelete(s, key, Some(at), revert) != s
           && RestoreInv(s0, Undelete(s, key, Some(at), revert), keys, add - {key}, restored + {key}, version)
  {
    var key := s.rows[at].key;
    assert s.rows[at] == Parked(s)[at - s.n];
    InBoth(restored, Parked(s0), Parked(s), s.rows[at]);
    if key == "" {
      DropEmpty(s0, s, keys, add, restored, version, s.rows[at]);
    } else {
      assert key !in s.table;
      assert Chosen(s, key, Some(at)) == Some(at);
      BringBack(s0, s, keys, add, restored, version, at, revert);
    }
  }

  lemma DropEmpty(s0: State, s: State, keys: set<Key>, add: set<Key>, restored: set<Key>, version: Option<nat>, r: Row)
    requires RestoreInv(s0, s, keys, add, restored, version)
    requires r in Parked(s0) && r.key == "" && "" in add && Matches(r, "", version)
    ensures RestoreInv(s0, s, keys, add - {""}, restored, version)
  {
  }

  lemma BringBack(s0: State, s: State, keys: set<Key>, add: set<Key>, restored: set<Key>, version: Option<nat>,
                  at: nat, revert: bool)
    requires RestoreInv(s0, s, keys, add, restored, version) && s.n <= at < |s.rows|
    requires var r := s.rows[at]; r in Parked(s0) && r.key in add && r.key != "" && Matches(r, r.key, version)
    ensures var key := s.rows[at].key;
      RestoreInv(s0, UndeleteAt(s, key, at, revert), keys, add - {key}, restored + {key}, version)
  {
    var r := s.rows[at];
    var t := UndeleteAt(s, r.key, at, revert);
    Undeleted(s, r.key, at, revert);
    KeepsSame(s0, s, t, restored, at);
    JoinRestored(s0, s, t, keys, add, restored, version, r);
  }

  /** All that changes when one parked row comes back. */
  lemma Undeleted(s: State, key: Key, at: nat, revert: bool)
    requires Inv(s) && key !in s.table && s.n <= at < |s.rows| && s.rows[at].key == key
    ensures var t := UndeleteAt(s, key, at, revert);
      && Inv(t) && Permuted(s, t) && t.table.Keys == s.table.Keys + {key}
      && Abs(t) == Abs(s)[key := EntryOf(s.files, s.rows[at])]
      && multiset(Parked(t)) == multiset(Parked(s)) - multiset{s.rows[at]}
  {
    UndeleteInv(s, key, at, revert);
    UndeletePermutes(s, key, at, revert);
    UndeleteParked(s, key, at, revert);
  }

  lemma KeepsSame(s0: State, s: State, t: State, restored: set<Key>, at: nat)
    requires s0.n <= |s0.rows| && s.n <= at < |s.rows| && t.n <= |t.rows|
    requires SameExcept(restored, Parked(s0), Parked(s))
    requires multiset(Parked(t)) == multiset(Parked(s)) - multiset{s.rows[at]}
    ensures SameExcept(restored + {s.rows[at].key}, Parked(s0), Parked(t))
  {
  }

  /** The records as they read once one more key has come back. */
  lemma JoinEntries(m0: map<Key, Entry>, m: map<Key, Entry>, files: Files, parked: seq<Row>, restored: set<Key>,
                    version: Option<nat>, r: Row)
    requires m.Keys == m0.Keys + restored && r.key !in m && r in parked && Matches(r, r.key, version)
    requires forall k :: k in m0 ==> m[k] == m0[k]
    requires forall k :: k in restored ==> Recovered(files, parked, k, version, m[k])
    ensures forall k :: k in m0 ==> m[r.key := EntryOf(files, r)][k] == m0[k]
    ensures forall k :: k in restored + {r.key} ==> Recovered(files, parked, k, version, m[r.key := EntryOf(files, r)][k])
  {
    hide ValueOf, Matches;
  }

  lemma KeysOf(s: State)
    requires Inv(s)
    ensures Abs(s).Keys == s.table.Keys
  {
  }

  /** The keys taken off the list. */
  lemma JoinKeys(parked: seq<Row>, keys: set<Key>, add: set<Key>, restored: set<Key>, version: Option<nat>, r: Row)
    requires forall k :: k in keys - add ==> HasMatch(parked, k, version) && (k in restored <==> k != "")
    requires r in parked && r.key in add && Matches(r, r.key, version) && r.key != "" && restored <= keys - add
    ensures forall k :: k in keys - (add - {r.key}) ==>
              HasMatch(parked, k, version) && (k in restored + {r.key} <==> k != "")
  {
  }

  lemma JoinRestored(s0: State, s: State, t: State, keys: set<Key>, add: set<Key>, restored: set<Key>,
                     version: Option<nat>, r: Row)
    requires RestoreInv(s0, s, keys, add, restored, version) && Inv(t) && Permuted(s, t)
    requires r in Parked(s0) && r.key in add && Matches(r, r.key, version) && r.key != ""
    requires t.table.Keys == s.table.Keys + {r.key} && Abs(t) == Abs(s)[r.key := EntryOf(s.files, r)]
    requires SameExcept(restored + {r.key}, Parked(s0), Parked(t))
    ensures RestoreInv(s0, t, keys, add - {r.key}, restored + {r.key}, version)
  {
    hide TableOk, RowsOk, Tiled, SameExcept, Matches, Versions, Extents, ValueOf, SizesOf, Abs, HasMatch, Recovered, Parked;
    KeysOf(s0);
    KeysOf(s);
    JoinEntries(Abs(s0), Abs(s), s.files, Parked(s0), restored, version, r);
    JoinKeys(Parked(s0), keys, add, restored, version, r);
  }

  /** A key no row is found for now had none at the start either. */
  lemma NoneParked(s0: State, s: State, back: set<Key>, k: Key, version: Option<nat>)
    requires s0.n <= |s0.rows| && s.n <= |s.rows| && SameExcept(back, Parked(s0), Parked(s)) && k !in back
    requires NoMatch(s.rows, s.n, |s.rows|, k, version)
    ensures !HasMatch(Parked(s0), k, version)
  {
    forall r | r in Parked(s0) ensures !Matches(r, k, version) {
      if r.key == k {
        InBoth(back, Parked(s0), Parked(s), r);
        var i :| 0 <= i < |Parked(s)| && Parked(s)[i] == r;
        assert s.rows[s.n + i] == r;
      }
    }
  }

  lemma RestoreEnds(s0: State, s: State, keys: set<Key>, add: set<Key>, restored: set<Key>, version: Option<nat>, at: nat)
    requires RestoreInv(s0, s, keys, add, restored, version) && at <= |s.rows|
    requires add == {} || at == |s.rows|
    requires ScanClear(s.rows, s.n, at, add, version)
    ensures RestoredAll(s0, s, keys, restored, version)
  {
    forall k | k in add ensures !HasMatch(Parked(s0), k, version) {
      NoneParked(s0, s, restored, k, version);
    }
  }

  // ---- which row each deleted key takes ----

  /** The first parked row of the key with the wanted version. */
  function FirstMatch(rows: seq<Row>, from: nat, to: nat, key: Key, version: Option<nat>): Option<nat>
    requires from <= to <= |rows|
    decreases |rows| - from
  {
    if from == to then None
    else if Matches(rows[from], key, version) then Some(from)
    else FirstMatch(rows, from + 1, to, key, version)
  }

  lemma {:induction false} FirstMatchGrows(rows: seq<Row>, from: nat, to: nat, key: Key, version: Option<nat>)
    requires from <= to < |rows|
    ensures FirstMatch(rows, from, to + 1, key, version)
         == (if FirstMatch(rows, from, to, key, version).Some? then FirstMatch(rows, from, to, key, version)
             else if Matches(rows[to], key, version) then Some(to) else None)
    decreases |rows| - from
  {
    if from < to && !Matches(rows[from], key, version) {
      FirstMatchGrows(rows, from + 1, to, key, version);
    }
  }

  lemma {:induction false} FirstMatchIs(rows: seq<Row>, from: nat, to: nat, key: Key, version: Option<nat>)
    requires from <= to <= |rows|
    ensures FirstMatch(rows, from, to, key, version).None? ==> NoMatch(rows, from, to, key, version)
    ensures FirstMatch(rows, from, to, key, version).Some? ==>
              from <= FirstMatch(rows, from, to, key, version).value < to
              && Matches(rows[FirstMatch(rows, from, to, key, version).value], key, version)
              && NoMatch(rows, from, FirstMatch(rows, from, to, key, version).value, key, version)
    decreases |rows| - from
  {
    if from < to && !Matches(rows[from], key, version) {
      FirstMatchIs(rows, from + 1, to, key, version);
    }
  }

  predicate Wanted(r: Row, keys: set<Key>, version: Option<nat>) {
    r.key in keys && Matches(r, r.key, version)
  }

  /** The first parked row any of the keys would take. */
  function FirstWanted(rows: seq<Row>, from: nat, keys: set<Key>, version: Option<nat>): (at: Option<nat>)
    requires from <= |rows|
    ensures at.Some? ==> from <= at.value < |rows| && Wanted(rows[at.value], keys, version)
    ensures forall i :: from <= i < (if at.Some? then at.value else |rows|) ==> !Wanted(rows[i], keys, version)
    decreases |rows| - from
  {
    if from == |rows| then None
    else if Wanted(rows[from], keys, version) then Some(from)
    else FirstWanted(rows, from + 1, keys, version)
  }

  /** The first match is the first parked row of the key, of exactly the session named if one is. */
  lemma FirstMatchPlain(rows: seq<Row>, from: nat, key: Key, version: Option<nat>)
    requires from <= |rows|
    ensures var at := FirstMatch(rows, from, |rows|, key, version);
      && (at.Some? ==> from <= at.value < |rows| && rows[at.value].key == key
                       && (version.Some? ==> rows[at.value].ver == version.value))
      && forall i :: from <= i < (if at.Some? then at.value else |rows|) ==>
           rows[i].key != key || (version.Some? && rows[i].ver != version.value)
  {
    FirstMatchIs(rows, from, |rows|, key, version);
  }

  /** Bringing keys back one after the other, each time the first parked row that any key still missing wants,
      in the rows as they then stand; the empty key is only taken off the list. */
  function RestoreAll(s: State, keys: set<Key>, version: Option<nat>, revert: bool): (t: State)
    requires s.n <= |s.rows|
    ensures t.n <= |t.rows|
    decreases |keys|
  {
    var at := FirstWanted(s.rows, s.n, keys, version);
    if at.None? then s
    else
      var key := s.rows[at.value].key;
      RestoreAll(if key == "" then s else UndeleteAt(s, key, at.value, revert), keys - {key}, version, revert)
  }

  lemma WantedAt(rows: seq<Row>, from: nat, at: nat, keys: set<Key>, version: Option<nat>)
    requires from <= at < |rows| && Wanted(rows[at], keys, version) && ScanClear(rows, from, at, keys, version)
    ensures FirstWanted(rows, from, keys, version) == Some(at)
  {
    forall i | from <= i < at ensures !Wanted(rows[i], keys, version) {
    }
  }

  lemma NoneWanted(rows: seq<Row>, from: nat, keys: set<Key>, version: Option<nat>)
    requires from <= |rows| && ScanClear(rows, from, |rows|, keys, version)
    ensures FirstWanted(rows, from, keys, version) == None
  {
  }

  /** Brought back one after the other, exactly the wanted keys with a matching parked row are live again,
      although every one of them permutes the rows the next one is looked for in. */
  lemma {:induction false} RestoreAllIs(s0: State, s: State, keys: set<Key>, add: set<Key>, restored: set<Key>,
                                        version: Option<nat>, revert: bool) returns (all: set<Key>)
    requires RestoreInv(s0, s, keys, add, restored, version)
    ensures RestoredAll(s0, RestoreAll(s, add, version, revert), keys, all, version)
    decreases |add|
  {
    hide RestoreInv, RestoredAll, Tiled, Extents, SizesOf, RowsOk, TableOk, UndeleteAt;
    assert Inv(s) by { RestoreIsSound(s0, s, keys, add, restored, version); }
    var at := FirstWanted(s.rows, s.n, add, version);
    if at.None? {
      RestoreEnds(s0, s, keys, add, restored, version, |s.rows|);
      all := restored;
    } else {
      var key := s.rows[at.value].key;
      RestoreStep(s0, s, keys, add, restored, version, at.value, revert);
      if key == "" {
        all := RestoreAllIs(s0, s, keys, add - {key}, restored, version, revert);
      } else {
        all := RestoreAllIs(s0, UndeleteAt(s, key, at.value, revert), keys, add - {key}, restored + {key}, version, revert);
      }
    }
  }

  lemma RestoreIsSound(s0: State, s: State, keys: set<Key>, add: set<Key>, restored: set<Key>, version: Option<nat>)
    requires RestoreInv(s0, s, keys, add, restored, version)
    ensures Inv(s)
  {
  }

  /** A single deleted key takes its first parked row of the wanted version. */
  lemma RestoreOne(s: State, key: Key, version: Option<nat>, revert: bool)
    requires s.n <= |s.rows|
    ensures var at := FirstMatch(s.rows, s.n, |s.rows|, key, version);
      if at.None? || key == "" || at.value < s.n || at.value >= |s.rows| then RestoreAll(s, {key}, version, revert) == s
      else RestoreAll(s, {key}, version, revert) == UndeleteAt(s, key, at.value, revert)
  {
    var at := FirstMatch(s.rows, s.n, |s.rows|, key, version);
    FirstMatchIs(s.rows, s.n, |s.rows|, key, version);
    var w := FirstWanted(s.rows, s.n, {key}, version);
    assert w == at;
    assert {key} - {key} == {};
  }

  // ---- swapping live keys back ----

  function Live(s: State, key: Key): Entry
    requires key in s.table && s.table[key] < |s.rows|
  {
    EntryOf(s.files, s.rows[s.table[key]])
  }

  /** What a key reads once the rows up to `to` were looked at: the first matching version,
      unless the record is locked, the key empty, or nothing matches. */
  function Swapped(s0: State, key: Key, to: nat, version: Option<nat>): Entry
    requires key in s0.table && s0.table[key] < |s0.rows| && s0.n <= to <= |s0.rows|
  {
    var at := FirstMatch(s0.rows, s0.n, to, key, version);
    var e := Live(s0, key);
    if at.None? || at.value >= |s0.rows| || key == "" || WriteLocked(e.flags) then e
    else Entry(ValueOf(s0.files, s0.rows[at.value]), e.flags)
  }

  /** The same for any live key: those not listed keep what they have. */
  function Goal(s0: State, keys: set<Key>, key: Key, to: nat, version: Option<nat>): Entry
    requires key in s0.table && s0.table[key] < |s0.rows| && s0.n <= to <= |s0.rows|
  {
    if key in keys then Swapped(s0, key, to, version) else Live(s0, key)
  }

  ghost predicate SameShape(s0: State, s: State) {
    && Inv(s0) && Inv(s) && s.files == s0.files && Versions(s.rows) == Versions(s0.rows)
    && s.n == s0.n && s.table == s0.table && |s.rows| == |s0.rows|
  }

  /** The keys still on the list are those without a match so far. */
  ghost predicate Unmatched(s0: State, keys: set<Key>, chg: set<Key>, to: nat, version: Option<nat>)
    requires s0.n <= to <= |s0.rows|
  {
    forall k :: k in keys ==> (k in chg <==> FirstMatch(s0.rows, s0.n, to, k, version).None?)
  }

  ghost predicate Values(s0: State, s: State, keys: set<Key>, to: nat, version: Option<nat>)
    requires SameShape(s0, s) && s0.n <= to <= |s0.rows|
  {
    forall k :: k in s0.table ==> Live(s, k) == Goal(s0, keys, k, to, version)
  }

  /** Half way through: rows from `to` on are as they were; the keys taken off the list have their first match. */
  ghost predicate SwapInv(s0: State, s: State, keys: set<Key>, chg: set<Key>, to: nat, version: Option<nat>) {
    && SameShape(s0, s) && s.n <= to <= |s.rows|
    && chg <= keys <= s0.table.Keys
    && (forall i :: to <= i < |s.rows| ==> s.rows[i] == s0.rows[i])
    && Unmatched(s0, keys, chg, to, version)
    && Values(s0, s, keys, to, version)
  }

  /** Every listed key was swapped with its first matching parked row, once; nothing else changed. */
  ghost predicate SwappedAll(s0: State, s: State, keys: set<Key>, version: Option<nat>) {
    && SameShape(s0, s) && keys <= s0.table.Keys
    && (forall k :: k in s0.table ==> Abs(s)[k] == Goal(s0, keys, k, |s0.rows|, version))
  }

  lemma SwapStarts(s: State, keys: set<Key>, version: Option<nat>)
    requires Inv(s) && keys <= s.table.Keys
    ensures SwapInv(s, s, keys, keys, s.n, version)
  {
  }

  /** The row at `to` is the first match of its key, if the key still is on the list. */
  lemma MatchAt(s0: State, keys: set<Key>, chg: set<Key>, to: nat, version: Option<nat>)
    requires s0.n <= to < |s0.rows| && Unmatched(s0, keys, chg, to, version)
    ensures forall k :: k in keys ==>
              FirstMatch(s0.rows, s0.n, to + 1, k, version)
              == if k in chg && Matches(s0.rows[to], k, version) then Some(to)
                 else FirstMatch(s0.rows, s0.n, to, k, version)
  {
    forall k | k in keys
      ensures FirstMatch(s0.rows, s0.n, to + 1, k, version)
           == if k in chg && Matches(s0.rows[to], k, version) then Some(to)
              else FirstMatch(s0.rows, s0.n, to, k, version)
    {
      FirstMatchGrows(s0.rows, s0.n, to, k, version);
    }
  }

  /** A row no listed key wants. */
  lemma SwapSkips(s0: State, s: State, keys: set<Key>, chg: set<Key>, to: nat, version: Option<nat>)
    requires SwapInv(s0, s, keys, chg, to, version) && to < |s.rows|
    requires !(s.rows[to].key in chg && Matches(s.rows[to], s.rows[to].key, version))
    ensures SwapInv(s0, s, keys, chg, to + 1, version)
  {
    MatchAt(s0, keys, chg, to, version);
  }

  /** A row some listed key wants: it is swapped, or passed over for good when the record may not change. */
  lemma SwapStep(s0: State, s: State, keys: set<Key>, chg: set<Key>, to: nat, version: Option<nat>)
    requires SwapInv(s0, s, keys, chg, to, version) && to < |s.rows|
    requires s.rows[to].key in chg && Matches(s.rows[to], s.rows[to].key, version)
    ensures SwapInv(s0, Unwrite(s, s.rows[to].key, Some(to)), keys, chg - {s.rows[to].key}, to + 1, version)
  {
    var key := s.rows[to].key;
    var t := Unwrite(s, key, Some(to));
    UnwriteRefines(s, key, Some(to));
    MatchAt(s0, keys, chg, to, version);
    assert Live(s, key) == Live(s0, key);
    UnwriteEntries(s, key, to);
    assert Live(t, key) == Swapped(s0, key, to + 1, version);
    SwapTaken(s0, s, t, keys, chg, to, version, key);
  }

  lemma UnwriteEntries(s: State, key: Key, at: nat)
    requires Inv(s) && key in s.table && s.n <= at < |s.rows| && s.rows[at].key == key
    ensures var t := Unwrite(s, key, Some(at));
      && t.table == s.table && t.n == s.n && |t.rows| == |s.rows|
      && (forall i :: at + 1 <= i < |t.rows| ==> t.rows[i] == s.rows[i])
      && (forall k :: k in s.table && k != key ==> Live(t, k) == Live(s, k))
      && Live(t, key) == if key == "" || WriteLocked(Live(s, key).flags) then Live(s, key)
                         else Entry(ValueOf(s.files, s.rows[at]), Live(s, key).flags)
  {
  }

  lemma SwapTaken(s0: State, s: State, t: State, keys: set<Key>, chg: set<Key>, to: nat, version: Option<nat>, key: Key)
    requires SwapInv(s0, s, keys, chg, to, version) && to < |s.rows| && key in chg
    requires SameShape(s, t) && (forall i :: to + 1 <= i < |t.rows| ==> t.rows[i] == s.rows[i])
    requires Matches(s0.rows[to], key, version)
    requires forall k :: k in s.table && k != key ==> Live(t, k) == Live(s, k)
    requires Live(t, key) == Swapped(s0, key, to + 1, version)
    ensures SwapInv(s0, t, keys, chg - {key}, to + 1, version)
  {
    hide TableOk, RowsOk, Tiled, Extents, Versions, SizesOf, ValueOf, FirstMatch;
    MatchAt(s0, keys, chg, to, version);
  }

  lemma SwapEnds(s0: State, s: State, keys: set<Key>, chg: set<Key>, to: nat, version: Option<nat>)
    requires SwapInv(s0, s, keys, chg, to, version)
    requires chg == {} || to == |s.rows|
    ensures SwappedAll(s0, s, keys, version)
    decreases |s.rows| - to
  {
    if to < |s.rows| {
      SwapSkips(s0, s, keys, chg, to, version);
      SwapEnds(s0, s, keys, chg, to + 1, version);
    }
  }

  // ---- both together ----

  /** Every requested key with a matching parked row takes such a row's value, unless the record is locked
      or the key is empty; every other record stays as it is, and no version is lost. */
  ghost predicate Reverted(s0: State, s: State, keys: set<Key>, version: Option<nat>) {
    && Inv(s0) && Inv(s) && Versions(s.rows) == Versions(s0.rows)
    && (forall k :: k in s.table <==> k in s0.table || Comes(s0, k, keys, version))
    && (forall k :: k in s.table ==>
          if Comes(s0, k, keys, version) then Recovered(s0.files, Parked(s0), k, version, Abs(s)[k])
          else k in s0.table && Abs(s)[k] == Abs(s0)[k])
  }

  ghost predicate Comes(s0: State, k: Key, keys: set<Key>, version: Option<nat>)
    requires Inv(s0)
  {
    && k in keys && k != "" && HasMatch(Parked(s0), k, version)
    && (k in s0.table ==> !WriteLocked(Abs(s0)[k].flags))
  }

  lemma MatchIff(s0: State, s1: State, back: set<Key>, k: Key, version: Option<nat>)
    requires s0.n <= |s0.rows| && s1.n <= |s1.rows| && s1.files == s0.files
    requires SameExcept(back, Parked(s0), Parked(s1)) && k !in back
    ensures var at := FirstMatch(s1.rows, s1.n, |s1.rows|, k, version);
      && (at.Some? <==> HasMatch(Parked(s0), k, version))
      && (at.Some? ==> at.value < |s1.rows| && s1.rows[at.value] in Parked(s0) && Matches(s1.rows[at.value], k, version))
  {
    var at := FirstMatch(s1.rows, s1.n, |s1.rows|, k, version);
    FirstMatchIs(s1.rows, s1.n, |s1.rows|, k, version);
    if at.Some? {
      assert s1.rows[at.value] == Parked(s1)[at.value - s1.n];
      InBoth(back, Parked(s0), Parked(s1), s1.rows[at.value]);
    } else {
      NoneParked(s0, s1, back, k, version);
    }
  }

  /** What one key reads at the end. */
  lemma RevertedKey(s0: State, s1: State, s: State, keys: set<Key>, restored: set<Key>, version: Option<nat>, k: Key)
    requires Inv(s0) && RestoredAll(s0, s1, keys - s0.table.Keys, restored, version)
    requires SwappedAll(s1, s, keys * s0.table.Keys, version) && k in s.table
    ensures if Comes(s0, k, keys, version) then Recovered(s0.files, Parked(s0), k, version, Abs(s)[k])
            else k in s0.table && Abs(s)[k] == Abs(s0)[k]
  {
    hide TableOk, RowsOk, Tiled, SameExcept, Versions, Extents, ValueOf, FirstMatch, SizesOf;
    if k in keys && k in s0.table {
      MatchIff(s0, s1, restored, k, version);
    }
  }

  lemma RevertIs(s0: State, s1: State, s: State, keys: set<Key>, restored: set<Key>, version: Option<nat>)
    requires Inv(s0) && RestoredAll(s0, s1, keys - s0.table.Keys, restored, version)
    requires SwappedAll(s1, s, keys * s0.table.Keys, version)
    ensures Reverted(s0, s, keys, version)
  {
    hide TableOk, RowsOk, Tiled, SameExcept, Versions, Extents, ValueOf, FirstMatch, Recovered, SizesOf, Matches, EntryOf;
    forall k | k in s.table
      ensures if Comes(s0, k, keys, version) then Recovered(s0.files, Parked(s0), k, version, Abs(s)[k])
              else k in s0.table && Abs(s)[k] == Abs(s0)[k]
    {
      RevertedKey(s0, s1, s, keys, restored, version, k);
    }
  }

  lemma RestoreNone(s: State, version: Option<nat>, revert: bool)
    requires s.n <= |s.rows|
    ensures RestoreAll(s, {}, version, revert) == s
  {
  }

  lemma SwappedNone(s0: State, s: State, version: Option<nat>)
    requires SwappedAll(s0, s, {}, version)
    ensures Abs(s) == Abs(s0)
  {
    hide Tiled, Extents, SizesOf, RowsOk, ValueOf;
  }

  lemma SwappedOne(s0: State, s: State, key: Key, version: Option<nat>)
    requires SwappedAll(s0, s, {key}, version) && key in s0.table
    ensures s0.table[key] < |s0.rows| && Abs(s) == Abs(s0)[key := Swapped(s0, key, |s0.rows|, version)]
  {
    hide Tiled, Extents, SizesOf, RowsOk, ValueOf, Swapped;
  }

  lemma RevertLive(s0: State, s: State, key: Key, version: Option<nat>)
    requires Inv(s0) && key in s0.table && SwappedAll(s0, s, {key}, version)
    ensures Inv(s) && Abs(s) == RevertedTo(s0, key, version)
  {
    hide Tiled, Extents, SizesOf, RowsOk, TableOk, ValueOf, FirstMatch;
    SwappedOne(s0, s, key, version);
    FirstMatchIs(s0.rows, s0.n, |s0.rows|, key, version);
    assert Abs(s0)[key] == Live(s0, key);
    assert Abs(s0)[key := Abs(s0)[key]] == Abs(s0);
  }

  lemma RevertDeleted(s0: State, s: State, key: Key, version: Option<nat>, revert: bool)
    requires Inv(s0) && key !in s0.table && SwappedAll(RestoreAll(s0, {key}, version, revert), s, {}, version)
    ensures Inv(s) && Abs(s) == RevertedTo(s0, key, version)
  {
    hide Tiled, Extents, SizesOf, RowsOk, TableOk, EntryOf, FirstMatch;
    var at := FirstMatch(s0.rows, s0.n, |s0.rows|, key, version);
    FirstMatchIs(s0.rows, s0.n, |s0.rows|, key, version);
    RestoreOne(s0, key, version, revert);
    SwappedNone(RestoreAll(s0, {key}, version, revert), s, version);
    if key != "" && at.Some? {
      Undeleted(s0, key, at.value, revert);
    }
  }

  /** The records once one key has taken its first parked row of the wanted version: a live record keeps its flags,
      a locked one its value too. */
  ghost function RevertedTo(s0: State, key: Key, version: Option<nat>): map<Key, Entry>
    requires Inv(s0)
  {
    var at := FirstMatch(s0.rows, s0.n, |s0.rows|, key, version);
    if key == "" || at.None? || at.value >= |s0.rows| then Abs(s0)
    else if key !in s0.table then Abs(s0)[key := EntryOf(s0.files, s0.rows[at.value])]
    else if WriteLocked(Abs(s0)[key].flags) then Abs(s0)
    else Abs(s0)[key := Entry(ValueOf(s0.files, s0.rows[at.value]), Abs(s0)[key].flags)]
  }

  /** A single key, live or deleted, takes its first parked row of the wanted version, and nothing else changes. */
  lemma RevertOne(s0: State, s: State, key: Key, version: Option<nat>, revert: bool)
    requires Inv(s0)
    requires SwappedAll(RestoreAll(s0, {key} - s0.table.Keys, version, revert), s, {key} * s0.table.Keys, version)
    ensures Inv(s) && Abs(s) == RevertedTo(s0, key, version)
  {
    hide Inv, RevertedTo, SwappedAll;
    if key in s0.table {
      assert {key} - s0.table.Keys == {} && {key} * s0.table.Keys == {key};
      RestoreNone(s0, version, revert);
      RevertLive(s0, s, key, version);
    } else {
      assert {key} - s0.table.Keys == {key} && {key} * s0.table.Keys == {};
      RevertDeleted(s0, s, key, version, revert);
    }
  }
}
