/** The server's books over the locks: per connection and group, how often its private handle has locked. */
module Server {
  import opened Locks

  /** Who is who: the id of the private handle of a connection for a group path,
      and the storage a group path leads to (several paths may lead to the same one). */
  datatype Net = Net(handle: (nat, string) -> nat, backend: string -> nat)

  ghost predicate NetOk(net: Net) {
    && (forall c: nat, g: string :: net.handle(c, g) > 0)
    && (forall c: nat, g: string, d: nat, k: string :: net.handle(c, g) == net.handle(d, k) ==> c == d && g == k)
  }

  /** The lock commands of a client; a removal is answered in two steps, the flag and the clearing. */
  datatype Command = CmdRead | CmdWrite | CmdUnlock | CmdRaise | CmdClear

  type Systems = map<nat, Sys>

  function SysOf(systems: Systems, b: nat): Sys {
    if b in systems then systems[b] else START
  }

  function EventOf(cmd: Command, h: nat): Event {
    match cmd
    case CmdRead => Read(h)
    case CmdWrite => Write(h)
    case CmdUnlock => Free(h)
    case CmdRaise => Raise
    case CmdClear => Clear
  }

  /** The lock after a command; clearing waits, and changes nothing, while anything is held. */
  function NextLock(l: Lock, cmd: Command, h: nat): Lock {
    match cmd
    case CmdRead => RLock(l, h).0
    case CmdWrite => WLock(l, h).0
    case CmdUnlock => Unlock(l, h)
    case CmdRaise => Raised(l)
    case CmdClear => if Idle(l) then FREE else l
  }

  /** The pending count after a command that found the lock as it is: only what was granted counts,
      and every unlock does, so that the count of a client that unlocks too often falls below 0. */
  function Booked(l: Lock, cmd: Command, h: nat, n: int): int {
    match cmd
    case CmdRead => if RLock(l, h).1 == Done then n + 1 else n
    case CmdWrite => if WLock(l, h).1 == Done then n + 1 else n
    case CmdUnlock => n - 1
    case CmdRaise => n
    case CmdClear => if Idle(l) then 0 else n
  }

  /** The lock and its holders after a command. */
  function After(s: Sys, cmd: Command, h: nat): Sys {
    if cmd == CmdClear && !Idle(s.lock) then s else Step(s, EventOf(cmd, h))
  }

  lemma AfterLock(s: Sys, cmd: Command, h: nat)
    ensures After(s, cmd, h).lock == NextLock(s.lock, cmd, h)
  {
  }

  /** A lock command is granted, and booked, exactly when those who hold the lock leave room for it. */
  lemma CommandsGrant(s: Sys, h: nat, n: int)
    requires Accounted(s) && h > 0 && !s.lock.removed && s.lock.readCnt < 0xFFFF_FFFF && s.lock.writeCnt < 0xFFFF_FFFF
    ensures After(s, CmdRead, h).readers == s.readers + multiset{h} <==> forall w :: w in s.writers ==> w == h
    ensures Booked(s.lock, CmdRead, h, n) == n + 1 <==> forall w :: w in s.writers ==> w == h
    ensures After(s, CmdWrite, h).writers == s.writers + multiset{h}
       <==> h in s.writers || (s.readers == multiset{} && s.writers == multiset{})
    ensures Booked(s.lock, CmdWrite, h, n) == n + 1 <==> h in s.writers || (s.readers == multiset{} && s.writers == multiset{})
  {
    hide Accounted, Step;
    ReadGrantedExactly(s, h);
    WriteGrantedExactly(s, h);
    BookedAs(s, h, n);
  }

  lemma BookedAs(s: Sys, h: nat, n: int)
    ensures Booked(s.lock, CmdRead, h, n) == n + 1 <==> Step(s, Read(h)).readers == s.readers + multiset{h}
    ensures Booked(s.lock, CmdWrite, h, n) == n + 1 <==> Step(s, Write(h)).writers == s.writers + multiset{h}
  {
    assert (s.readers + multiset{h})[h] == s.readers[h] + 1;
    assert (s.writers + multiset{h})[h] == s.writers[h] + 1;
  }

  /** An unlock gives up writing first; a removal takes the lock away from nobody, and ends when nobody holds it. */
  lemma CommandsRelease(s: Sys, h: nat)
    requires Accounted(s) && h > 0
    ensures h in s.writers ==> After(s, CmdUnlock, h).writers == s.writers - multiset{h}
    ensures h !in s.writers ==> After(s, CmdUnlock, h).readers == s.readers - multiset{h}
    ensures After(s, CmdRaise, h) == s.(lock := s.lock.(removed := true))
    ensures After(s, CmdClear, h) == if s.readers == multiset{} && s.writers == multiset{} then START else s
    ensures forall n :: Booked(s.lock, CmdUnlock, h, n) == n - 1 && Booked(s.lock, CmdRaise, h, n) == n
    ensures forall n :: Booked(s.lock, CmdClear, h, n) == if s.readers == multiset{} && s.writers == multiset{} then 0 else n
  {
    hide Accounted;
    WriterIs(s, h);
    WriterCounts(s);
  }

  lemma WriterCounts(s: Sys)
    requires Accounted(s)
    ensures s.lock.writeCnt == 0 <==> s.lock.writeId == 0
  {
  }

  // ---- all connections together ----

  /** The locks of all storages and the pending counts of all connections. */
  datatype World = World(systems: Systems, table: map<(nat, string), int>)

  datatype Request = Request(conn: nat, group: string, cmd: Command)

  function Count(w: World, c: nat, g: string): int {
    if (c, g) in w.table then w.table[(c, g)] else 0
  }

  /** Clients unlock only what they have locked. */
  predicate Disciplined(w: World, r: Request) {
    r.cmd == CmdUnlock ==> Count(w, r.conn, r.group) > 0
  }

  function Serve(net: Net, w: World, r: Request): World {
    var b, h := net.backend(r.group), net.handle(r.conn, r.group);
    var s := SysOf(w.systems, b);
    World(w.systems[b := After(s, r.cmd, h)],
          w.table[(r.conn, r.group) := Booked(s.lock, r.cmd, h, Count(w, r.conn, r.group))])
  }

  /** Every connection's book shows exactly what its handle holds. */
  ghost predicate InBooks(net: Net, w: World) {
    && (forall b :: Accounted(SysOf(w.systems, b)))
    && (forall c: nat, g: string :: Count(w, c, g) == Held(SysOf(w.systems, net.backend(g)), net.handle(c, g)))
  }

  /** What one command does to the holds of its own handle and of all others. */
  lemma HoldsMove(s: Sys, cmd: Command, h: nat)
    requires Accounted(s) && h > 0 && (cmd == CmdUnlock ==> Held(s, h) > 0)
    ensures Accounted(After(s, cmd, h))
    ensures Held(After(s, cmd, h), h) == Booked(s.lock, cmd, h, Held(s, h))
    ensures forall x :: x != h ==> Held(After(s, cmd, h), x) == Held(s, x)
  {
    if cmd != CmdClear || Idle(s.lock) {
      StepAccounts(s, EventOf(cmd, h));
    }
    match cmd
    case CmdRead => ReadMoves(s, h);
    case CmdWrite => WriteMoves(s, h);
    case CmdUnlock => FreeOne(s, h);
    case CmdRaise =>
    case CmdClear =>
      if Idle(s.lock) {
        ClearMoves(s, h);
      }
  }

  lemma ReadMoves(s: Sys, h: nat)
    ensures Held(Step(s, Read(h)), h) == Booked(s.lock, CmdRead, h, Held(s, h))
    ensures forall x :: x != h ==> Held(Step(s, Read(h)), x) == Held(s, x)
  {
  }

  lemma WriteMoves(s: Sys, h: nat)
    ensures Held(Step(s, Write(h)), h) == Booked(s.lock, CmdWrite, h, Held(s, h))
    ensures forall x :: x != h ==> Held(Step(s, Write(h)), x) == Held(s, x)
  {
  }

  lemma ClearMoves(s: Sys, h: nat)
    requires Accounted(s) && Idle(s.lock)
    ensures forall x :: Held(s, x) == 0 && Held(Step(s, Clear), x) == 0
  {
    NoneOf(s.readers);
    NoneOf(s.writers);
  }

  lemma ServeKeepsBooks(net: Net, w: World, r: Request)
    requires NetOk(net) && InBooks(net, w) && Disciplined(w, r)
    ensures InBooks(net, Serve(net, w, r))
  {
    hide After, Accounted, Held, Booked;
    var b, h := net.backend(r.group), net.handle(r.conn, r.group);
    var v := Serve(net, w, r);
    assert Count(w, r.conn, r.group) == Held(SysOf(w.systems, b), h);
    HoldsMove(SysOf(w.systems, b), r.cmd, h);
    forall x | true ensures Accounted(SysOf(v.systems, x)) {
      assert Accounted(SysOf(w.systems, x));
    }
    forall c: nat, g: string | true
      ensures Count(v, c, g) == Held(SysOf(v.systems, net.backend(g)), net.handle(c, g))
    {
      assert Count(w, c, g) == Held(SysOf(w.systems, net.backend(g)), net.handle(c, g));
    }
  }

  ghost predicate DisciplinedRun(net: Net, w: World, run: seq<Request>)
    decreases |run|
  {
    run == [] || (Disciplined(w, run[0]) && DisciplinedRun(net, Serve(net, w, run[0]), run[1..]))
  }

  function ServeAll(net: Net, w: World, run: seq<Request>): World
    decreases |run|
  {
    if run == [] then w else ServeAll(net, Serve(net, w, run[0]), run[1..])
  }

  /** In every run of disciplined clients, however their requests interleave, the books stay right. */
  lemma {:induction false} BooksStayRight(net: Net, w: World, run: seq<Request>)
    requires NetOk(net) && InBooks(net, w) && DisciplinedRun(net, w, run)
    ensures InBooks(net, ServeAll(net, w, run))
    decreases |run|
  {
    hide InBooks, Serve, Disciplined;
    if run != [] {
      ServeKeepsBooks(net, w, run[0]);
      BooksStayRight(net, Serve(net, w, run[0]), run[1..]);
    }
  }

  /** In right books an unlock keeps them right exactly when something was pending: a client that unlocks too
      often is booked with less than nothing. */
  lemma UnlockInBooks(net: Net, w: World, c: nat, g: string)
    requires NetOk(net) && InBooks(net, w)
    ensures InBooks(net, Serve(net, w, Request(c, g, CmdUnlock))) <==> Count(w, c, g) > 0
  {
    hide Accounted, Held;
    var r := Request(c, g, CmdUnlock);
    var v := Serve(net, w, r);
    assert Count(w, c, g) == Held(SysOf(w.systems, net.backend(g)), net.handle(c, g));
    assert Count(v, c, g) == Count(w, c, g) - 1;
    if Count(w, c, g) > 0 {
      ServeKeepsBooks(net, w, r);
    } else {
      assert Count(v, c, g) != Held(SysOf(v.systems, net.backend(g)), net.handle(c, g));
    }
  }

  lemma EmptyBooks(net: Net)
    ensures InBooks(net, World(map[], map[]))
  {
  }

  // ---- one connection ----

  /** The storages behind the server; the ghost side records who holds what. */
  class Hub {
    var locks: map<nat, Lock>
    ghost var systems: Systems

    /** The ghost side belongs to the locks there are. */
    ghost predicate Tracks()
      reads this
    {
      locks.Keys == systems.Keys && forall b :: b in locks ==> locks[b] == systems[b].lock
    }

    /** And the locks count what is held. */
    ghost predicate Valid()
      reads this
    {
      Tracks() && forall b :: Accounted(SysOf(systems, b))
    }

    constructor ()
      ensures Valid() && systems == map[]
    {
      locks, systems := map[], map[];
    }

    function LockOf(b: nat): Lock
      reads this
    {
      if b in locks then locks[b] else FREE
    }

    /** Puts a lock into its next state. */
    method Put(b: nat, l: Lock, ghost s: Sys)
      requires Tracks() && l == s.lock
      modifies this
      ensures Tracks() && systems == old(systems)[b := s]
      ensures old(Valid()) && Accounted(s) ==> Valid()
    {
      hide Accounted;
      ghost var valid := Valid();
      locks := locks[b := l];
      systems := systems[b := s];
      if valid && Accounted(s) {
        forall x | true ensures Accounted(SysOf(systems, x)) {
          assert Accounted(SysOf(old(systems), x));
        }
      }
    }
  }

  /** The handler of one connection. */
  class ServerHandler {
    const me: nat
    const net: Net
    var lockerTable: map<string, int>

    constructor (me: nat, net: Net)
      ensures this.me == me && this.net == net && lockerTable == map[]
    {
      this.me, this.net, lockerTable := me, net, map[];
    }

    /** This connection's book shows exactly what its handles hold. */
    ghost predicate InOrder(hub: Hub)
      reads this, hub
    {
      NetOk(net) && hub.Valid() && OwnBook(net, me, lockerTable, hub.systems)
    }

    /** One lock command: the storage is asked, and what it granted is booked. Unless the client unlocks what it
        has not locked, an orderly book stays in order and nobody else's holds move. */
    method Handle(hub: Hub, g: string, cmd: Command) returns (ok: bool)
      requires NetOk(net) && hub.Tracks()
      modifies hub, this`lockerTable
      ensures hub.Tracks()
      ensures hub.systems == old(hub.systems)[net.backend(g) :=
                After(SysOf(old(hub.systems), net.backend(g)), cmd, net.handle(me, g))]
      ensures lockerTable == old(lockerTable)[g := Booked(SysOf(old(hub.systems), net.backend(g)).lock, cmd,
                                                          net.handle(me, g), Pending(old(lockerTable), g))]
      ensures ok <==> (if cmd == CmdRead || cmd == CmdWrite then Pending(lockerTable, g) == Pending(old(lockerTable), g) + 1
                       else cmd == CmdClear ==> Idle(SysOf(old(hub.systems), net.backend(g)).lock))
      ensures old(InOrder(hub)) && (cmd == CmdUnlock ==> Pending(old(lockerTable), g) > 0) ==>
                InOrder(hub) && HoldsKept(net.handle(me, g), old(hub.systems), hub.systems)
    {
      hide After, Accounted, NextLock, Held;
      var b, h := net.backend(g), net.handle(me, g);
      var l := hub.LockOf(b);
      ghost var s := SysOf(hub.systems, b);
      AfterLock(s, cmd, h);
      var n := Booked(l, cmd, h, Pending(lockerTable, g));
      ghost var orderly := InOrder(hub) && (cmd == CmdUnlock ==> Pending(lockerTable, g) > 0);
      if orderly {
        OwnHold(net, me, lockerTable, hub.systems, g);
        assert Accounted(s);
        HoldsMove(s, cmd, h);
        HandleStep(net, me, lockerTable, hub.systems, g, After(s, cmd, h), n);
      }
      var next;
      next, ok := Ask(l, cmd, h, Pending(lockerTable, g));
      hub.Put(b, next, After(s, cmd, h));
      lockerTable := lockerTable[g := n];
    }

    /** The connection is gone: group by group, everything it still holds is unlocked. */
    method Drain(hub: Hub)
      requires InOrder(hub)
      modifies hub
      ensures hub.Valid() && AllReleased(net, me, hub.systems) && OthersKept(net, me, old(hub.systems), hub.systems)
    {
      hide Held;
      var todo := lockerTable.Keys;
      DrainStarts(net, me, lockerTable, hub.systems);
      assert Draining(net, me, lockerTable, todo, hub.systems);
      while todo != {}
        invariant hub.Valid() && Draining(net, me, lockerTable, todo, hub.systems)
        invariant OthersKept(net, me, old(hub.systems), hub.systems)
      {
        var g :| g in todo;
        ghost var was := hub.systems;
        UnlockTimes(hub, net.backend(g), net.handle(me, g), lockerTable[g]);
        DrainStep(net, me, lockerTable, todo, g, old(hub.systems), was, hub.systems);
        todo := todo - {g};
      }
    }
  }

  /** Every handle but one holds what it held, in every storage. */
  ghost predicate HoldsKept(h: nat, was: Systems, now: Systems) {
    forall x, b :: x != h ==> Held(SysOf(now, b), x) == Held(SysOf(was, b), x)
  }

  function Pending(table: map<string, int>, g: string): int {
    if g in table then table[g] else 0
  }

  ghost predicate OwnBook(net: Net, me: nat, table: map<string, int>, systems: Systems) {
    forall g :: Pending(table, g) == Held(SysOf(systems, net.backend(g)), net.handle(me, g))
  }

  lemma OwnHold(net: Net, me: nat, table: map<string, int>, systems: Systems, g: string)
    requires OwnBook(net, me, table, systems)
    ensures Pending(table, g) == Held(SysOf(systems, net.backend(g)), net.handle(me, g))
  {
  }

  lemma HandleStep(net: Net, me: nat, table: map<string, int>, systems: Systems, g: string, t: Sys, n: int)
    requires NetOk(net) && OwnBook(net, me, table, systems) && Held(t, net.handle(me, g)) == n
    requires forall x :: x != net.handle(me, g) ==> Held(t, x) == Held(SysOf(systems, net.backend(g)), x)
    ensures OwnBook(net, me, table[g := n], systems[net.backend(g) := t])
    ensures HoldsKept(net.handle(me, g), systems, systems[net.backend(g) := t])
  {
    hide Held;
    var now := systems[net.backend(g) := t];
    forall k | true ensures Pending(table[g := n], k) == Held(SysOf(now, net.backend(k)), net.handle(me, k)) {
      assert Pending(table, k) == Held(SysOf(systems, net.backend(k)), net.handle(me, k));
      assert k != g ==> net.handle(me, k) != net.handle(me, g);
    }
  }

  /** Nothing is held any more by any handle of the connection. */
  ghost predicate AllReleased(net: Net, me: nat, systems: Systems) {
    forall g :: Held(SysOf(systems, net.backend(g)), net.handle(me, g)) == 0
  }

  /** The handle belongs to no group of this connection. */
  ghost predicate Foreign(net: Net, me: nat, x: nat) {
    forall g :: x != net.handle(me, g)
  }

  /** Everyone else holds what they held, in every storage. */
  ghost predicate OthersKept(net: Net, me: nat, was: Systems, now: Systems) {
    forall x, b :: Foreign(net, me, x) ==> Held(SysOf(now, b), x) == Held(SysOf(was, b), x)
  }

  /** The groups still to drain hold what the book says, the others nothing. */
  ghost predicate Draining(net: Net, me: nat, table: map<string, int>, todo: set<string>, systems: Systems) {
    && todo <= table.Keys
    && forall g :: Held(SysOf(systems, net.backend(g)), net.handle(me, g)) == if g in todo then table[g] else 0
  }

  lemma DrainStarts(net: Net, me: nat, table: map<string, int>, systems: Systems)
    requires OwnBook(net, me, table, systems)
    ensures Draining(net, me, table, table.Keys, systems)
  {
    hide Held;
    forall g | true ensures Held(SysOf(systems, net.backend(g)), net.handle(me, g)) == Pending(table, g) {
      assert Pending(table, g) == Held(SysOf(systems, net.backend(g)), net.handle(me, g));
    }
  }

  lemma DrainStep(net: Net, me: nat, table: map<string, int>, todo: set<string>, g: string,
                  first: Systems, was: Systems, now: Systems)
    requires NetOk(net) && g in todo && Draining(net, me, table, todo, was) && OthersKept(net, me, first, was)
    requires Held(SysOf(now, net.backend(g)), net.handle(me, g)) == 0
    requires forall x, c :: x != net.handle(me, g) ==> Held(SysOf(now, c), x) == Held(SysOf(was, c), x)
    ensures Draining(net, me, table, todo - {g}, now) && OthersKept(net, me, first, now)
  {
    hide Held;
    forall k | true
      ensures Held(SysOf(now, net.backend(k)), net.handle(me, k)) == if k in todo - {g} then table[k] else 0
    {
      assert Held(SysOf(was, net.backend(k)), net.handle(me, k)) == if k in todo then table[k] else 0;
    }
    forall x, b | Foreign(net, me, x) ensures Held(SysOf(now, b), x) == Held(SysOf(first, b), x) {
      assert x != net.handle(me, g);
      assert Held(SysOf(was, b), x) == Held(SysOf(first, b), x);
    }
  }

  /** Dispatching one command to the lock: an acquisition can be refused, and a removal may have to wait. */
  method Ask(l: Lock, cmd: Command, h: nat, n: int) returns (next: Lock, ok: bool)
    ensures next == NextLock(l, cmd, h)
    ensures ok <==> (if cmd == CmdRead || cmd == CmdWrite then Booked(l, cmd, h, n) == n + 1
                     else cmd == CmdClear ==> Idle(l))
  {
    ok := true;
    match cmd {
      case CmdRead =>
        var (to, r) := RLock(l, h);
        next, ok := to, r == Done;
      case CmdWrite =>
        var (to, r) := WLock(l, h);
        next, ok := to, r == Done;
      case CmdUnlock => next := Unlock(l, h);
      case CmdRaise => next := Raised(l);
      case CmdClear =>
        ok := Idle(l);
        next := if ok then FREE else l;
    }
  }

  method UnlockTimes(hub: Hub, b: nat, h: nat, times: int)
    requires hub.Valid() && h > 0 && Held(SysOf(hub.systems, b), h) == times
    modifies hub
    ensures hub.Valid() && Held(SysOf(hub.systems, b), h) == 0
    ensures forall x, c :: x != h ==> Held(SysOf(hub.systems, c), x) == Held(SysOf(old(hub.systems), c), x)
    ensures forall c :: c != b ==> Held(SysOf(hub.systems, c), h) == Held(SysOf(old(hub.systems), c), h)
  {
    hide Step, Accounted, Held;
    var n := times;
    while n > 0
      invariant hub.Valid() && Held(SysOf(hub.systems, b), h) == n
      invariant forall x, c :: x != h ==> Held(SysOf(hub.systems, c), x) == Held(SysOf(old(hub.systems), c), x)
      invariant forall c :: c != b ==> Held(SysOf(hub.systems, c), h) == Held(SysOf(old(hub.systems), c), h)
    {
      n := n - 1;
      ghost var s := SysOf(hub.systems, b);
      HoldsMove(s, CmdUnlock, h);
      AfterLock(s, CmdUnlock, h);
      FreesOne(s, h);
      hub.Put(b, Unlock(hub.LockOf(b), h), Step(s, Free(h)));
    }
  }

  lemma FreesOne(s: Sys, h: nat)
    requires Accounted(s) && Held(s, h) > 0
    ensures Held(Step(s, Free(h)), h) == Held(s, h) - 1
  {
    FreeOne(s, h);
  }
}
