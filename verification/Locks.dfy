/** The reader/writer lock shared by all in-memory handles of one database, and its runs. */
module Locks {
  import opened BigEndian
  import opened Bytes

  /** The counters as numbers. A handle is known by a non-zero id. */
  datatype Lock = Lock(readCnt: nat, writeId: nat, writeCnt: nat, removed: bool)

  /** How one pass of an acquiring loop ends; a blocked one waits for the next change or gives up. */
  datatype Outcome = Done | Blocked | Closed | Overflow

  const FREE := Lock(0, 0, 0, false)
  const COUNT_LIMIT := 0x1_0000_0000
  const ID_LIMIT := 0x1_0000_0000_0000_0000

  function RLock(l: Lock, me: nat): (Lock, Outcome) {
    if l.removed then (l, Closed)
    else if l.writeId != 0 && l.writeId != me then (l, Blocked)
    else if l.readCnt + 1 < COUNT_LIMIT then (l.(readCnt := l.readCnt + 1), Done)
    else (l, Overflow)
  }

  function WLock(l: Lock, me: nat): (Lock, Outcome) {
    if l.removed then (l, Closed)
    else if l.writeId == me then
      if l.writeCnt + 1 < COUNT_LIMIT then (l.(writeCnt := l.writeCnt + 1), Done) else (l, Overflow)
    else if l.readCnt == 0 && l.writeId == 0 then (l.(writeId := me, writeCnt := 1), Done)
    else (l, Blocked)
  }

  function Less(n: nat): nat { if n > 0 then n - 1 else 0 }

  function Unlock(l: Lock, me: nat): Lock {
    if l.writeId == me then
      l.(writeCnt := Less(l.writeCnt), writeId := if Less(l.writeCnt) == 0 then 0 else l.writeId)
    else l.(readCnt := Less(l.readCnt))
  }

  /** LCK_remove raises the flag first, then waits until the counters are all zero to clear them and the flag. */
  function Raised(l: Lock): Lock { l.(removed := true) }

  predicate Idle(l: Lock) { l.readCnt == 0 && l.writeId == 0 && l.writeCnt == 0 }

  // ---- the shared bytes ----

  /** The seventeen bytes read as counters: 4 of readers, 8 of the writer's id, 4 of its depth, 1 flag. */
  function View(cells: seq<byte>): Lock
    requires |cells| == 17
  {
    Lock(BeAt(cells, 0, 4), BeAt(cells, 4, 8), BeAt(cells, 12, 4), cells[16] != 0)
  }

  lemma {:induction false} BeSame(a: seq<byte>, b: seq<byte>, at: nat, k: nat)
    requires at + k <= |a| && at + k <= |b| && forall i :: at <= i < at + k ==> a[i] == b[i]
    ensures BeAt(a, at, k) == BeAt(b, at, k)
  {
    if k > 0 {
      BeSame(a, b, at, k - 1);
    }
  }

  /** Storing a number in its place. */
  function Store(cells: seq<byte>, at: nat, n: nat, k: nat): (r: seq<byte>)
    requires at + k <= |cells|
    ensures |r| == |cells|
  {
    cells[..at] + Be(n, k) + cells[at + k..]
  }

  lemma StoreReads(cells: seq<byte>, at: nat, n: nat, k: nat)
    requires at + k <= |cells| && n < Pow256(k)
    ensures BeAt(Store(cells, at, n, k), at, k) == n
    ensures forall i :: 0 <= i < |cells| && !(at <= i < at + k) ==> Store(cells, at, n, k)[i] == cells[i]
  {
    assert Store(cells, at, n, k)[at..at + k] == Be(n, k);
    BeReads(Store(cells, at, n, k), at, n, k);
  }

  lemma StoresReadCnt(cells: seq<byte>, n: nat)
    requires |cells| == 17 && n < COUNT_LIMIT
    ensures View(Store(cells, 0, n, 4)) == View(cells).(readCnt := n)
  {
    Powers();
    StoreReads(cells, 0, n, 4);
    BeSame(cells, Store(cells, 0, n, 4), 4, 8);
    BeSame(cells, Store(cells, 0, n, 4), 12, 4);
  }

  lemma StoresWriteId(cells: seq<byte>, n: nat)
    requires |cells| == 17 && n < ID_LIMIT
    ensures View(Store(cells, 4, n, 8)) == View(cells).(writeId := n)
  {
    Powers();
    StoreReads(cells, 4, n, 8);
    BeSame(cells, Store(cells, 4, n, 8), 0, 4);
    BeSame(cells, Store(cells, 4, n, 8), 12, 4);
  }

  lemma StoresWriteCnt(cells: seq<byte>, n: nat)
    requires |cells| == 17 && n < COUNT_LIMIT
    ensures View(Store(cells, 12, n, 4)) == View(cells).(writeCnt := n)
  {
    Powers();
    StoreReads(cells, 12, n, 4);
    BeSame(cells, Store(cells, 12, n, 4), 0, 4);
    BeSame(cells, Store(cells, 12, n, 4), 4, 8);
  }

  lemma ZeroCells(cells: seq<byte>)
    requires |cells| == 17 && forall i :: 0 <= i < 16 ==> cells[i] == 0
    ensures Idle(View(cells))
  {
    ZeroAt(cells, 0, 4);
    ZeroAt(cells, 4, 8);
    ZeroAt(cells, 12, 4);
  }

  lemma {:induction false} ZeroAt(cells: seq<byte>, at: nat, k: nat)
    requires at + k <= |cells|
    ensures BeAt(cells, at, k) == 0 <==> forall i :: at <= i < at + k ==> cells[i] == 0
  {
    if k > 0 {
      ZeroAt(cells, at, k - 1);
    }
  }

  lemma IdleCells(cells: seq<byte>)
    requires |cells| == 17
    ensures Idle(View(cells)) <==> cells[..16] == Fill(0, 16)
  {
    ZeroAt(cells, 0, 4);
    ZeroAt(cells, 4, 8);
    ZeroAt(cells, 12, 4);
    if cells[..16] == Fill(0, 16) {
      forall i | 0 <= i < 16 ensures cells[i] == 0 {
        assert cells[i] == cells[..16][i];
      }
    }
  }

  /** The bytes all handles of a database share, and the operations a handle carries out on them under the mutex. */
  class LockFile {
    var cells: seq<byte>

    constructor ()
      ensures |cells| == 17 && View(cells) == FREE
    {
      cells := Fill(0, 17);
      new;
      ZeroCells(cells);
    }

    /** One pass of the loop of LCK_rlock. */
    method TryRead(me: nat) returns (r: Outcome)
      requires |cells| == 17 && 0 < me < ID_LIMIT
      modifies this
      ensures |cells| == 17 && (View(cells), r) == RLock(View(old(cells)), me)
    {
      if cells[16] != 0 {
        return Closed;
      }
      var writeId := BeAt(cells, 4, 8);
      if writeId != 0 && writeId != me {
        return Blocked;
      }
      var readCnt := BeAt(cells, 0, 4) + 1;
      if readCnt >= COUNT_LIMIT {
        return Overflow;
      }
      StoresReadCnt(cells, readCnt);
      cells := Store(cells, 0, readCnt, 4);
      r := Done;
    }

    /** One pass of the loop of LCK_wlock. */
    method TryWrite(me: nat) returns (r: Outcome)
      requires |cells| == 17 && 0 < me < ID_LIMIT
      modifies this
      ensures |cells| == 17 && (View(cells), r) == WLock(View(old(cells)), me)
    {
      if cells[16] != 0 {
        return Closed;
      }
      var writeId := BeAt(cells, 4, 8);
      if writeId == me {
        var writeCnt := BeAt(cells, 12, 4) + 1;
        if writeCnt >= COUNT_LIMIT {
          return Overflow;
        }
        StoresWriteCnt(cells, writeCnt);
        cells := Store(cells, 12, writeCnt, 4);
        return Done;
      }
      if BeAt(cells, 0, 4) != 0 || writeId != 0 {
        return Blocked;
      }
      StoresWriteId(cells, me);
      cells := Store(cells, 4, me, 8);
      StoresWriteCnt(cells, 1);
      cells := Store(cells, 12, 1, 4);
      r := Done;
    }

    /** LCK_unlock: a writer gives up one level of writing first, anyone else one read. */
    method Release(me: nat)
      requires |cells| == 17
      modifies this
      ensures |cells| == 17 && View(cells) == Unlock(View(old(cells)), me)
    {
      Powers();
      if BeAt(cells, 4, 8) == me {
        var writeCnt := Less(BeAt(cells, 12, 4));
        StoresWriteCnt(cells, writeCnt);
        cells := Store(cells, 12, writeCnt, 4);
        if writeCnt == 0 {
          StoresWriteId(cells, 0);
          cells := Store(cells, 4, 0, 8);
        }
      } else {
        var readCnt := Less(BeAt(cells, 0, 4));
        StoresReadCnt(cells, readCnt);
        cells := Store(cells, 0, readCnt, 4);
      }
    }

    /** The first half of LCK_remove. */
    method RaiseFlag()
      requires |cells| == 17
      modifies this
      ensures |cells| == 17 && View(cells) == Raised(View(old(cells)))
    {
      var was := cells;
      cells := cells[16 := 1];
      BeSame(was, cells, 0, 4);
      BeSame(was, cells, 4, 8);
      BeSame(was, cells, 12, 4);
    }

    /** One pass of the waiting loop of LCK_remove: the bytes are cleared only when nothing is held. */
    method TryClear() returns (done: bool)
      requires |cells| == 17
      modifies this
      ensures |cells| == 17 && done == Idle(View(old(cells)))
      ensures View(cells) == if done then FREE else View(old(cells))
    {
      IdleCells(cells);
      done := cells[..16] == Fill(0, 16);
      if done {
        cells := Fill(0, 17);
        ZeroCells(cells);
      }
    }

    /** LCK_remove up to its first wait: the flag goes up, and the bytes are cleared at once if nothing is held;
        otherwise the caller waits and tries to clear again. */
    method Remove() returns (done: bool)
      requires |cells| == 17
      modifies this
      ensures |cells| == 17 && done == Idle(View(old(cells)))
      ensures View(cells) == if done then FREE else Raised(View(old(cells)))
    {
      RaiseFlag();
      done := TryClear();
    }
  }

  // ---- runs ----

  /** The lock together with who really holds what: one entry for every read and every level of writing. */
  datatype Sys = Sys(lock: Lock, readers: multiset<nat>, writers: multiset<nat>)

  datatype Event = Read(h: nat) | Write(h: nat) | Free(h: nat) | Raise | Clear

  const START := Sys(FREE, multiset{}, multiset{})

  /** Any handle may try anything, except to unlock what it does not hold; the bytes are cleared only when idle. */
  predicate Legal(s: Sys, e: Event) {
    match e
    case Read(h) => h > 0
    case Write(h) => h > 0
    case Free(h) => h in s.readers || h in s.writers
    case Raise => true
    case Clear => Idle(s.lock)
  }

  function Step(s: Sys, e: Event): Sys {
    match e
    case Read(h) =>
      var (lock, r) := RLock(s.lock, h);
      s.(lock := lock, readers := if r == Done then s.readers + multiset{h} else s.readers)
    case Write(h) =>
      var (lock, r) := WLock(s.lock, h);
      s.(lock := lock, writers := if r == Done then s.writers + multiset{h} else s.writers)
    case Free(h) =>
      if s.lock.writeId == h then s.(lock := Unlock(s.lock, h), writers := s.writers - multiset{h})
      else s.(lock := Unlock(s.lock, h), readers := s.readers - multiset{h})
    case Raise => s.(lock := Raised(s.lock))
    case Clear => s.(lock := FREE)
  }

  /** The counters are what is really held; while someone writes, everything held is held by the writer. */
  ghost predicate Accounted(s: Sys) {
    && s.lock.readCnt == |s.readers| && s.lock.writeCnt == |s.writers|
    && (s.lock.writeId != 0 <==> s.lock.writeCnt > 0)
    && (forall h :: h in s.writers ==> h == s.lock.writeId)
    && (s.lock.writeId != 0 ==> forall h :: h in s.readers ==> h == s.lock.writeId)
    && 0 !in s.readers
  }

  lemma StepAccounts(s: Sys, e: Event)
    requires Accounted(s) && Legal(s, e)
    ensures Accounted(Step(s, e))
  {
    match e
    case Read(h) =>
    case Write(h) => WriteAccounts(s, h);
    case Free(h) => FreeAccounts(s, h);
    case Raise =>
    case Clear =>
  }

  lemma NoneOf<T>(m: multiset<T>)
    requires |m| == 0
    ensures m == multiset{}
  {
  }

  lemma WriteAccounts(s: Sys, h: nat)
    requires Accounted(s) && h > 0
    ensures Accounted(Step(s, Write(h)))
  {
    if s.lock.readCnt == 0 {
      NoneOf(s.readers);
    }
    if s.lock.writeCnt == 0 {
      NoneOf(s.writers);
    }
  }

  lemma FreeAccounts(s: Sys, h: nat)
    requires Accounted(s) && (h in s.readers || h in s.writers)
    ensures Accounted(Step(s, Free(h)))
  {
    if s.lock.writeId == h {
      WriterWrites(s);
      if s.lock.writeCnt == 1 {
        LastOne(s.writers, h);
      }
    }
  }

  lemma WriterWrites(s: Sys)
    requires Accounted(s) && s.lock.writeId != 0
    ensures s.lock.writeId in s.writers
  {
    var h :| h in s.writers;
  }

  lemma LastOne<T>(m: multiset<T>, x: T)
    requires x in m && |m| == 1
    ensures m - multiset{x} == multiset{}
  {
    NoneOf(m - multiset{x});
  }

  ghost predicate LegalRun(s: Sys, run: seq<Event>)
    decreases |run|
  {
    run == [] || (Legal(s, run[0]) && LegalRun(Step(s, run[0]), run[1..]))
  }

  function Run(s: Sys, run: seq<Event>): Sys
    decreases |run|
  {
    if run == [] then s else Run(Step(s, run[0]), run[1..])
  }

  lemma {:induction false} RunAccounts(s: Sys, run: seq<Event>)
    requires Accounted(s) && LegalRun(s, run)
    ensures Accounted(Run(s, run))
    decreases |run|
  {
    if run != [] {
      StepAccounts(s, run[0]);
      RunAccounts(Step(s, run[0]), run[1..]);
    }
  }

  /** However the operations of any number of handles interleave: while one handle writes, no other holds anything. */
  lemma Exclusive(run: seq<Event>, writer: nat, other: nat)
    requires LegalRun(START, run) && writer in Run(START, run).writers && other != writer
    ensures other !in Run(START, run).writers && other !in Run(START, run).readers
    ensures Run(START, run).lock.writeId == writer
  {
    RunAccounts(START, run);
  }

  lemma StepAdmitsNone(s: Sys, e: Event)
    requires s.lock.removed && e != Clear
    ensures Step(s, e).lock.removed && Step(s, e).readers <= s.readers && Step(s, e).writers <= s.writers
  {
  }

  /** From the moment the flag is up until the bytes are cleared, nothing is acquired. */
  lemma {:induction false} RemovedAdmitsNone(s: Sys, run: seq<Event>)
    requires s.lock.removed && LegalRun(s, run) && Clear !in run
    ensures Run(s, run).lock.removed
    ensures Run(s, run).readers <= s.readers && Run(s, run).writers <= s.writers
    decreases |run|
  {
    hide Step, Legal;
    if run != [] {
      assert run[0] in run;
      StepAdmitsNone(s, run[0]);
      RemovedAdmitsNone(Step(s, run[0]), run[1..]);
    }
  }

  /** In every run the bytes are cleared only when nothing is held. */
  lemma ClearedWhenFree(run: seq<Event>)
    requires LegalRun(START, run) && Legal(Run(START, run), Clear)
    ensures Run(START, run).readers == multiset{} && Run(START, run).writers == multiset{}
  {
    RunAccounts(START, run);
    NoneOf(Run(START, run).readers);
    NoneOf(Run(START, run).writers);
  }

  /** Everything one handle holds. */
  function Held(s: Sys, h: nat): nat { s.readers[h] + s.writers[h] }

  function FreeMany(s: Sys, h: nat, n: nat): Sys
    decreases n
  {
    if n == 0 then s else FreeMany(Step(s, Free(h)), h, n - 1)
  }

  lemma FreeOne(s: Sys, h: nat)
    requires Accounted(s) && Held(s, h) > 0
    ensures var t := Step(s, Free(h));
      && Accounted(t) && Held(t, h) == Held(s, h) - 1
      && t.writers[h] == Less(s.writers[h])
      && (forall g :: g != h ==> t.readers[g] == s.readers[g] && t.writers[g] == s.writers[g])
  {
    FreeAccounts(s, h);
    if s.lock.writeId == h {
      WriterWrites(s);
    }
  }

  /** Unlocking as often as one has locked, in whatever mix of reads and re-entrant writes, gives up everything
      one holds and nothing else; the writing goes first, so a writer that also reads turns into a reader. */
  lemma {:induction false} FreeAll(s: Sys, h: nat, n: nat)
    requires Accounted(s) && n <= Held(s, h)
    ensures var t := FreeMany(s, h, n);
      && Accounted(t) && Held(t, h) == Held(s, h) - n
      && t.writers[h] == (if n <= s.writers[h] then s.writers[h] - n else 0)
      && (forall g :: g != h ==> t.readers[g] == s.readers[g] && t.writers[g] == s.writers[g])
    decreases n
  {
    hide Step, Accounted;
    if n > 0 {
      FreeOne(s, h);
      FreeAll(Step(s, Free(h)), h, n - 1);
    }
  }

  /** Without the discipline the books stay right exactly when nobody reads: a stray unlock of a handle that holds
      nothing takes a reader's place away if there is one, and does nothing at all if there is none. */
  lemma StrayUnlockExactly(s: Sys, h: nat)
    requires Accounted(s) && h > 0 && h !in s.readers && h !in s.writers
    ensures Accounted(Step(s, Free(h))) <==> s.lock.readCnt == 0
    ensures s.lock.readCnt == 0 ==> Step(s, Free(h)) == s
  {
    if s.lock.writeId == h {
      WriterWrites(s);
    }
    assert s.readers - multiset{h} == s.readers;
  }

  /** From there exclusion can be lost: a stranger's unlock takes a reader's place away. */
  lemma StrayUnlockBreaks()
    ensures var s := Run(START, [Read(1), Free(2), Write(2)]);
      1 in s.readers && s.lock.writeId == 2
  {
    var s1 := Step(START, Read(1));
    var s2 := Step(s1, Free(2));
    var s3 := Step(s2, Write(2));
    assert s2.readers == multiset{1};
    assert [Read(1), Free(2), Write(2)][1..] == [Free(2), Write(2)];
    assert [Free(2), Write(2)][1..] == [Write(2)];
    assert Run(s2, [Write(2)]) == s3;
  }

  // ---- when a lock is granted ----

  /** Who writes, told from the holders alone. */
  lemma WriterIs(s: Sys, h: nat)
    requires Accounted(s) && h > 0
    ensures s.lock.writeId == h <==> h in s.writers
    ensures s.lock.writeId == 0 <==> s.writers == multiset{}
    ensures s.lock.readCnt == 0 <==> s.readers == multiset{}
  {
    if s.lock.writeId != 0 {
      WriterWrites(s);
    } else {
      NoneOf(s.writers);
    }
    if s.lock.readCnt == 0 {
      NoneOf(s.readers);
    }
  }

  /** While the flag is down and the counter has room, reading is granted exactly when nobody else writes; readers
      never keep each other out. What is not granted changes nothing. */
  lemma ReadGrantedExactly(s: Sys, h: nat)
    requires Accounted(s) && h > 0 && !s.lock.removed && s.lock.readCnt < 0xFFFF_FFFF
    ensures Step(s, Read(h)).readers == s.readers + multiset{h} <==> forall w :: w in s.writers ==> w == h
    ensures Step(s, Read(h)) == s <==> exists w :: w in s.writers && w != h
    ensures Step(s, Read(h)).writers == s.writers
  {
    WriterIs(s, h);
    if s.lock.writeId != 0 {
      WriterWrites(s);
      assert (s.readers + multiset{h})[h] == s.readers[h] + 1;
    }
  }

  /** Writing is granted exactly to the writer itself, once more, or when nobody holds anything. */
  lemma WriteGrantedExactly(s: Sys, h: nat)
    requires Accounted(s) && h > 0 && !s.lock.removed && s.lock.writeCnt < 0xFFFF_FFFF
    ensures Step(s, Write(h)).writers == s.writers + multiset{h}
       <==> h in s.writers || (s.readers == multiset{} && s.writers == multiset{})
    ensures Step(s, Write(h)) == s <==> h !in s.writers && (s.readers != multiset{} || s.writers != multiset{})
    ensures Step(s, Write(h)).readers == s.readers
  {
    WriterIs(s, h);
    assert (s.writers + multiset{h})[h] == s.writers[h] + 1;
  }

  /** With the flag up nothing is granted to anybody, and the caller is told the lock is closed. */
  lemma ClosedToAll(s: Sys, h: nat)
    requires s.lock.removed
    ensures Step(s, Read(h)) == s && Step(s, Write(h)) == s
    ensures RLock(s.lock, h).1 == Closed && WLock(s.lock, h).1 == Closed
  {
  }

  /** Where the seventeen bytes keep what: readers first, then the writer's id, its depth, and the flag. */
  lemma CellsHold(readCnt: nat, writeId: nat, writeCnt: nat, flag: byte)
    requires readCnt < 0x1_0000_0000 && writeId < 0x1_0000_0000_0000_0000 && writeCnt < 0x1_0000_0000
    ensures var cells := Be(readCnt, 4) + Be(writeId, 8) + Be(writeCnt, 4) + [flag];
      |cells| == 17 && View(cells) == Lock(readCnt, writeId, writeCnt, flag != 0)
  {
    var cells := Be(readCnt, 4) + Be(writeId, 8) + Be(writeCnt, 4) + [flag];
    Powers();
    assert cells[0..4] == Be(readCnt, 4) && cells[4..12] == Be(writeId, 8) && cells[12..16] == Be(writeCnt, 4);
    BeReads(cells, 0, readCnt, 4);
    BeReads(cells, 4, writeId, 8);
    BeReads(cells, 12, writeCnt, 4);
  }
}
