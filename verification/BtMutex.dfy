// Locking of shared Btrees: the steps of one connection.  The thread that runs
// a connection holds the mutex of that connection, so everything in
// Connection is private to it; only the BtShared mutexes are contended.
module BtLocking {
  // pBt stands for the address of the BtShared object.
  datatype Btree = Btree(pBt: int, wantToLock: nat, locked: bool)

  datatype Call = Enter(p: nat) | Leave(p: nat)

  // Where the thread is: between calls, or in sqlite3BtreeEnter(p) before the
  // try-lock, at Btree q of the releasing loop, before the blocking enter, or
  // at Btree q of the relocking loop.
  datatype Place = Idle | Trying(p: nat) | Releasing(p: nat, q: nat) | Blocking(p: nat) | Relocking(p: nat, q: nat)

  // list is the pNext list of sharable Btrees; aDb the sharable entries of
  // db->aDb[] as positions in list; todo the rest of an EnterAll or LeaveAll.
  datatype Connection = Connection(list: seq<Btree>, aDb: seq<nat>, at: Place, todo: seq<Call>)

  // What the next step does to a mutex.
  datatype MutexOp = Nothing | Try(pBt: int) | Wait(pBt: int) | Free(pBt: int)

  function NextOp(k: Connection): MutexOp
    requires Fits(k)
  {
    match k.at
    case Idle =>
      if k.todo != [] && k.todo[0].Leave? && k.list[k.todo[0].p].wantToLock == 1
      then Free(k.list[k.todo[0].p].pBt)
      else Nothing
    case Trying(p) => Try(k.list[p].pBt)
    case Releasing(p, q) => if q < |k.list| && k.list[q].locked then Free(k.list[q].pBt) else Nothing
    case Blocking(p) => Wait(k.list[p].pBt)
    case Relocking(p, q) => if q < |k.list| && k.list[q].wantToLock > 0 then Wait(k.list[q].pBt) else Nothing
  }

  function SetLocked(k: Connection, i: nat, locked: bool, at: Place): Connection
    requires i < |k.list|
  {
    k.(list := k.list[i := k.list[i].(locked := locked)], at := at)
  }

  // One step; got tells whether a try-lock succeeded.
  function Next(k: Connection, got: bool): Connection
    requires Fits(k)
  {
    match k.at
    case Idle =>
      if k.todo == [] then k
      else
        var p := k.todo[0].p;
        var b := k.list[p];
        var rest := k.(todo := k.todo[1..]);
        (match k.todo[0]
         case Enter(_) =>
           rest.(list := k.list[p := b.(wantToLock := b.wantToLock + 1)], at := if b.locked then Idle else Trying(p))
         case Leave(_) =>
           rest.(list := k.list[p := b.(wantToLock := b.wantToLock - 1, locked := b.locked && b.wantToLock > 1)]))
    case Trying(p) => if got then SetLocked(k, p, true, Idle) else k.(at := Releasing(p, p + 1))
    case Releasing(p, q) =>
      if q == |k.list| then k.(at := Blocking(p))
      else if k.list[q].locked then SetLocked(k, q, false, Releasing(p, q + 1))
      else k.(at := Releasing(p, q + 1))
    case Blocking(p) => SetLocked(k, p, true, Relocking(p, p + 1))
    case Relocking(p, q) =>
      if q == |k.list| then k.(at := Idle)
      else if k.list[q].wantToLock > 0 then SetLocked(k, q, true, Relocking(p, q + 1))
      else k.(at := Relocking(p, q + 1))
  }

  // Positions are in range, and a Btree is left only while it is entered.
  predicate Fits(k: Connection) {
    && InRange(|k.list|, k.at)
    && (forall i :: 0 <= i < |k.todo| ==> k.todo[i].p < |k.list|)
    && (forall i :: 0 <= i < |k.todo| && k.todo[i].Leave? ==> k.list[k.todo[i].p].wantToLock > 0)
    && (forall i, j :: 0 <= i < j < |k.todo| ==> k.todo[i] != k.todo[j])
  }

  predicate InRange(n: nat, at: Place) {
    match at
    case Idle => true
    case Trying(p) => p < n
    case Releasing(p, q) => p < q <= n
    case Blocking(p) => p < n
    case Relocking(p, q) => p < q <= n
  }

  // The list is in ascending order of address, and aDb names each Btree once.
  predicate Ordered(k: Connection) {
    && (forall i, j :: 0 <= i < j < |k.list| ==> k.list[i].pBt < k.list[j].pBt)
    && (forall i :: 0 <= i < |k.aDb| ==> k.aDb[i] < |k.list|)
    && (forall i, j :: 0 <= i < j < |k.aDb| ==> k.aDb[i] != k.aDb[j])
  }

  // Whether Btree i is to be locked at this place, given that it is wanted.
  predicate Due(at: Place, i: nat) {
    match at
    case Idle => true
    case Trying(p) => i != p
    case Releasing(p, q) => i < p || q <= i
    case Blocking(p) => i < p
    case Relocking(p, q) => i < q
  }

  // Exactly the wanted Btrees that are due are locked, and an Enter in progress
  // wants its Btree.
  predicate Settled(k: Connection) {
    && (forall i :: 0 <= i < |k.list| ==> (k.list[i].locked <==> k.list[i].wantToLock > 0 && Due(k.at, i)))
    && (!k.at.Idle? && k.at.p < |k.list| ==> k.list[k.at.p].wantToLock > 0)
  }

  predicate Good(k: Connection) {
    Fits(k) && Ordered(k) && Settled(k)
  }

  // The mutexes the connection's fields say it holds.
  function LockedSet(k: Connection): set<int> {
    set i | 0 <= i < |k.list| && k.list[i].locked :: k.list[i].pBt
  }

  // A waiting thread holds only mutexes of smaller address.
  lemma WaitsAbove(k: Connection)
    requires Good(k) && NextOp(k).Wait?
    ensures forall a :: a in LockedSet(k) ==> a < NextOp(k).pBt
  {
  }

  // A step changes the fields the way it changes the mutexes.
  lemma StepLocks(k: Connection, got: bool)
    requires Good(k) && (got ==> NextOp(k).Try?)
    ensures LockedSet(Next(k, got)) ==
      match NextOp(k) {
        case Nothing => LockedSet(k)
        case Try(a) => if got then LockedSet(k) + {a} else LockedSet(k)
        case Wait(a) => LockedSet(k) + {a}
        case Free(a) => LockedSet(k) - {a}
      }
  {
    var k' := Next(k, got);
    assert forall i :: 0 <= i < |k.list| ==> k'.list[i].pBt == k.list[i].pBt;
    if k.at.Idle? && k.todo != [] {
      var p := k.todo[0].p;
      assert forall i :: 0 <= i < |k.list| && i != p ==> k'.list[i] == k.list[i];
    }
  }

  // The assertions of lockBtreeMutex and unlockBtreeMutex about p->locked.
  lemma StepLocked(k: Connection)
    requires Good(k)
    ensures NextOp(k).Wait? || NextOp(k).Try? ==> NextOp(k).pBt !in LockedSet(k)
    ensures NextOp(k).Free? ==> NextOp(k).pBt in LockedSet(k)
  {
  }

  lemma StepFits(k: Connection, got: bool)
    requires Good(k) && (got ==> NextOp(k).Try?)
    ensures Fits(Next(k, got))
  {
    var k' := Next(k, got);
    if k.at.Idle? && k.todo != [] {
      var p := k.todo[0].p;
      assert forall i :: 0 <= i < |k.list| && i != p ==> k'.list[i] == k.list[i];
      assert forall i :: 0 <= i < |k'.todo| ==> k'.todo[i] == k.todo[i + 1];
    }
  }

  lemma StepSettled(k: Connection, got: bool)
    requires Good(k) && (got ==> NextOp(k).Try?)
    ensures Settled(Next(k, got))
  {
    var k' := Next(k, got);
    if k.at.Idle? && k.todo != [] {
      var p := k.todo[0].p;
      assert forall i :: 0 <= i < |k.list| && i != p ==> k'.list[i] == k.list[i];
    }
  }

  lemma StepGood(k: Connection, got: bool)
    requires Good(k) && (got ==> NextOp(k).Try?)
    ensures Good(Next(k, got)) && SameList(k, Next(k, got))
  {
    StepFits(k, got);
    StepSettled(k, got);
  }

  // The Btrees of a connection and their order do not change.
  predicate SameList(k: Connection, k': Connection) {
    && |k'.list| == |k.list| && k'.aDb == k.aDb
    && forall i :: 0 <= i < |k.list| ==> k'.list[i].pBt == k.list[i].pBt
  }

  // Own steps left until the Enter in progress returns.
  function StepsLeft(k: Connection): nat
    requires Fits(k)
  {
    var n := |k.list|;
    match k.at
    case Idle => 0
    case Trying(p) => 2 * (n - p) + 2
    case Releasing(p, q) => (n - q) + (n - p) + 2
    case Blocking(p) => n - p + 1
    case Relocking(p, q) => n - q + 1
  }

  // Own steps that m queued calls may take.
  function StepsFor(m: nat, n: nat): nat {
    if m == 0 then 0 else StepsFor(m - 1, n) + 2 * n + 3
  }

  // Own steps left until everything that was asked for is done.
  function Work(k: Connection): nat
    requires Fits(k)
  {
    StepsLeft(k) + StepsFor(|k.todo|, |k.list|)
  }

  // The thread is between calls with nothing left to do.
  predicate Returned(k: Connection) {
    k.at.Idle? && k.todo == []
  }

  // Every step uses up one of them, inside Enter or not.
  lemma StepWorks(k: Connection, got: bool)
    requires Good(k) && (got ==> NextOp(k).Try?) && !Returned(k)
    ensures Fits(Next(k, got)) && Work(Next(k, got)) < Work(k)
  {
    StepGood(k, got);
    if k.at.Idle? {
      assert Next(k, got).todo == k.todo[1..] && StepsLeft(Next(k, got)) <= 2 * |k.list| + 2;
    } else {
      assert Next(k, got).todo == k.todo;
    }
  }

  // A step inside Enter uses up one of them and leaves the wishes as they are.
  lemma StepInside(k: Connection, got: bool)
    requires Good(k) && (got ==> NextOp(k).Try?) && !k.at.Idle?
    ensures Fits(Next(k, got)) && StepsLeft(Next(k, got)) < StepsLeft(k)
    ensures SameWishes(k, Next(k, got))
    ensures Next(k, got).at.Idle? || Next(k, got).at.p == k.at.p
  {
    StepGood(k, got);
  }

  predicate SameWishes(k: Connection, k': Connection) {
    && SameList(k, k')
    && forall i :: 0 <= i < |k.list| ==> k'.list[i].wantToLock == k.list[i].wantToLock
  }

  // The entry points.
  datatype Request = EnterOne(p: nat) | LeaveOne(p: nat) | EnterAll | LeaveAll

  function Calls(k: Connection, request: Request): seq<Call> {
    match request
    case EnterOne(p) => [Enter(p)]
    case LeaveOne(p) => [Leave(p)]
    case EnterAll => seq(|k.aDb|, i requires 0 <= i < |k.aDb| => Enter(k.aDb[i]))
    case LeaveAll => seq(|k.aDb|, i requires 0 <= i < |k.aDb| => Leave(k.aDb[i]))
  }

  // A thread between calls may make a request, leaving only what it entered.
  predicate MayRequest(k: Connection, request: Request) {
    && k.at.Idle? && k.todo == []
    && match request {
         case EnterOne(p) => p < |k.list|
         case LeaveOne(p) => p < |k.list| && k.list[p].wantToLock > 0
         case EnterAll => true
         case LeaveAll => forall i :: 0 <= i < |k.aDb| ==> k.aDb[i] < |k.list| && k.list[k.aDb[i]].wantToLock > 0
       }
  }

  lemma RequestGood(k: Connection, request: Request)
    requires Good(k) && MayRequest(k, request)
    ensures Good(k.(todo := Calls(k, request))) && LockedSet(k.(todo := Calls(k, request))) == LockedSet(k)
  {
  }
}

// Any number of connections, each run by its own thread, sharing BtShared
// objects.
module BtProtocol {
  import opened BtLocking

  // holder says which connection owns a BtShared mutex; db is BtShared.db.
  datatype State = State(conns: seq<Connection>, holder: map<int, nat>, db: map<int, nat>)

  datatype Event = Begin(c: nat, request: Request) | Step(c: nat, got: bool)

  // The step of a thread is possible unless the mutex it waits for is held; a
  // try-lock never blocks, fails when the mutex is held and may fail otherwise.
  predicate Possible(s: State, e: Event) {
    e.c < |s.conns| && Fits(s.conns[e.c]) &&
    var k := s.conns[e.c];
    match e
    case Begin(_, request) => MayRequest(k, request)
    case Step(_, got) =>
      && (k.at.Idle? ==> k.todo != [])
      && (got ==> NextOp(k).Try?)
      && (got || NextOp(k).Wait? ==> NextOp(k).pBt !in s.holder)
  }

  function Apply(s: State, e: Event): State
    requires Possible(s, e)
  {
    var k := s.conns[e.c];
    match e
    case Begin(c, request) => s.(conns := s.conns[c := k.(todo := Calls(k, request))])
    case Step(c, got) =>
      var s' := s.(conns := s.conns[c := Next(k, got)]);
      (match NextOp(k)
       case Nothing => s'
       case Try(a) => if got then Taken(s', a, c) else s'
       case Wait(a) => Taken(s', a, c)
       case Free(a) => s'.(holder := s'.holder - {a}))
  }

  function Taken(s: State, a: int, c: nat): State {
    s.(holder := s.holder[a := c], db := s.db[a := c])
  }

  // Connection c owns exactly the mutexes in locked.
  ghost predicate Owns(holder: map<int, nat>, c: nat, locked: set<int>) {
    forall a {:trigger a in holder} {:trigger a in locked} :: a in locked <==> a in holder && holder[a] == c
  }

  // Every connection is in order, its fields say exactly which mutexes it owns,
  // and BtShared.db names the owner.
  ghost predicate Inv(s: State) {
    && (forall c :: 0 <= c < |s.conns| ==> Good(s.conns[c]))
    && (forall c :: 0 <= c < |s.conns| ==> Owns(s.holder, c, LockedSet(s.conns[c])))
    && Named(s)
  }

  ghost predicate Named(s: State) {
    forall a :: a in s.holder ==> s.holder[a] < |s.conns| && a in s.db && s.db[a] == s.holder[a]
  }

  predicate Initial(s: State) {
    && s.holder == map[]
    && forall c :: 0 <= c < |s.conns| ==>
         Ordered(s.conns[c]) && s.conns[c].at.Idle? && s.conns[c].todo == []
         && forall i :: 0 <= i < |s.conns[c].list| ==>
              !s.conns[c].list[i].locked && s.conns[c].list[i].wantToLock == 0
  }

  lemma InitialInv(s: State)
    requires Initial(s)
    ensures Inv(s)
  {
  }

  // What a step of connection c does to the ownership of connection d.
  lemma TakenOwns(holder: map<int, nat>, a: int, c: nat, d: nat, locked: set<int>)
    requires Owns(holder, d, locked) && a !in holder
    ensures Owns(holder[a := c], d, if d == c then locked + {a} else locked)
  {
  }

  lemma FreedOwns(holder: map<int, nat>, a: int, c: nat, d: nat, locked: set<int>)
    requires Owns(holder, d, locked) && a in holder && holder[a] == c
    ensures Owns(holder - {a}, d, if d == c then locked - {a} else locked)
  {
  }

  lemma StepOwns(s: State, c: nat, got: bool, d: nat)
    requires Inv(s) && Possible(s, Step(c, got)) && d < |s.conns|
    ensures Owns(Apply(s, Step(c, got)).holder, d, LockedSet(if d == c then Next(s.conns[c], got) else s.conns[d]))
  {
    var k := s.conns[c];
    var a := if NextOp(k).Nothing? then 0 else NextOp(k).pBt;
    StepLocks(k, got);
    StepLocked(k);
    assert Owns(s.holder, c, LockedSet(k));
    if got || NextOp(k).Wait? {
      TakenOwns(s.holder, a, c, d, LockedSet(s.conns[d]));
    } else if NextOp(k).Free? {
      FreedOwns(s.holder, a, c, d, LockedSet(s.conns[d]));
    }
  }

  lemma StepNamed(s: State, c: nat, got: bool)
    requires Named(s) && Possible(s, Step(c, got))
    ensures Named(Apply(s, Step(c, got)))
  {
  }

  lemma ApplyInv(s: State, e: Event)
    requires Inv(s) && Possible(s, e)
    ensures Inv(Apply(s, e))
  {
    var k := s.conns[e.c];
    var s' := Apply(s, e);
    match e
    case Begin(_, request) =>
      RequestGood(k, request);
    case Step(_, got) =>
      StepGood(k, got);
      StepNamed(s, e.c, got);
      forall d | 0 <= d < |s.conns| ensures Owns(s'.holder, d, LockedSet(s'.conns[d])) {
        StepOwns(s, e.c, got, d);
      }
  }

  // Runs: any interleaving of requests and steps.
  predicate Runs(s: State, events: seq<Event>)
    decreases |events|, 0
  {
    events == [] ||
    (Runs(s, events[..|events| - 1]) && Possible(After(s, events[..|events| - 1]), events[|events| - 1]))
  }

  function After(s: State, events: seq<Event>): State
    requires Runs(s, events)
    decreases |events|, 1
  {
    if events == [] then s else Apply(After(s, events[..|events| - 1]), events[|events| - 1])
  }

  lemma {:induction false} RunInv(s: State, events: seq<Event>)
    requires Inv(s) && Runs(s, events)
    ensures Inv(After(s, events)) && |After(s, events).conns| == |s.conns|
  {
    if events != [] {
      var before := events[..|events| - 1];
      RunInv(s, before);
      ApplyInv(After(s, before), events[|events| - 1]);
    }
  }

  // Between calls a Btree is wanted if and only if it is locked if and only if
  // its connection owns the mutex and is named by BtShared.db.
  lemma LocksMatchWishes(s: State, events: seq<Event>, c: nat, i: nat)
    requires Initial(s) && Runs(s, events) && c < |After(s, events).conns|
    requires var k := After(s, events).conns[c]; k.at.Idle? && i < |k.list|
    ensures var s' := After(s, events);
      var b := s'.conns[c].list[i];
      && (b.locked <==> b.wantToLock > 0)
      && (b.locked <==> b.pBt in s'.holder && s'.holder[b.pBt] == c)
      && (b.locked ==> b.pBt in s'.db && s'.db[b.pBt] == c)
  {
    var s' := After(s, events);
    InitialInv(s);
    RunInv(s, events);
    var k := s'.conns[c];
    var b := k.list[i];
    assert Owns(s'.holder, c, LockedSet(k));
    if b.pBt in LockedSet(k) {
      var j :| 0 <= j < |k.list| && k.list[j].locked && k.list[j].pBt == b.pBt;
      assert j == i;
    }
  }

  // Mutual exclusion in the fields: two connections never both have the same
  // BtShared locked.
  lemma OneOwner(s: State, events: seq<Event>, c: nat, i: nat, d: nat, j: nat)
    requires Initial(s) && Runs(s, events) && c < |After(s, events).conns| && d < |After(s, events).conns|
    requires i < |After(s, events).conns[c].list| && j < |After(s, events).conns[d].list|
    ensures var b, e := After(s, events).conns[c].list[i], After(s, events).conns[d].list[j];
      b.locked && e.locked && b.pBt == e.pBt ==> c == d && i == j
  {
    var s' := After(s, events);
    InitialInv(s);
    RunInv(s, events);
    assert Owns(s'.holder, c, LockedSet(s'.conns[c])) && Owns(s'.holder, d, LockedSet(s'.conns[d]));
    var b := s'.conns[c].list[i];
    var e := s'.conns[d].list[j];
    if b.locked && e.locked && b.pBt == e.pBt {
      assert b.pBt in LockedSet(s'.conns[c]) && b.pBt in LockedSet(s'.conns[d]);
    }
  }

  // What the assertions of lockBtreeMutex and unlockBtreeMutex demand.
  lemma AssertionsHold(s: State, events: seq<Event>, c: nat)
    requires Initial(s) && Runs(s, events) && c < |After(s, events).conns| && Fits(After(s, events).conns[c])
    ensures var s' := After(s, events);
      match NextOp(s'.conns[c]) {
        case Nothing => true
        case Try(a) => a !in LockedSet(s'.conns[c]) && (a in s'.holder ==> s'.holder[a] != c)
        case Wait(a) => a !in LockedSet(s'.conns[c]) && (a in s'.holder ==> s'.holder[a] != c)
        case Free(a) =>
          a in LockedSet(s'.conns[c]) && a in s'.holder && s'.holder[a] == c && a in s'.db && s'.db[a] == c
      }
  {
    var s' := After(s, events);
    InitialInv(s);
    RunInv(s, events);
    StepLocked(s'.conns[c]);
    assert Owns(s'.holder, c, LockedSet(s'.conns[c]));
  }

  // Connection c waits in mutex_enter for a mutex that connection d owns.
  predicate BlockedBy(s: State, c: nat, d: nat) {
    && c < |s.conns| && d < |s.conns| && Fits(s.conns[c]) && NextOp(s.conns[c]).Wait?
    && NextOp(s.conns[c]).pBt in s.holder && s.holder[NextOp(s.conns[c]).pBt] == d
  }

  // Every blocking mutex_enter is made while owning only mutexes of smaller
  // address, although try-locks may have been taken in any order.
  lemma BlocksAscending(s: State, events: seq<Event>, c: nat, a: int)
    requires Initial(s) && Runs(s, events) && c < |After(s, events).conns| && Fits(After(s, events).conns[c])
    requires NextOp(After(s, events).conns[c]).Wait?
    requires a in After(s, events).holder && After(s, events).holder[a] == c
    ensures a < NextOp(After(s, events).conns[c]).pBt
  {
    var s' := After(s, events);
    InitialInv(s);
    RunInv(s, events);
    assert Owns(s'.holder, c, LockedSet(s'.conns[c]));
    WaitsAbove(s'.conns[c]);
  }

  function Awaited(s: State, c: nat): int {
    if c < |s.conns| && Fits(s.conns[c]) && NextOp(s.conns[c]).Wait? then NextOp(s.conns[c]).pBt else 0
  }

  predicate Owned(s: State, c: nat, a: int) {
    a in s.holder && s.holder[a] == c
  }

  lemma BlockAscends(s: State, c: nat, d: nat)
    requires Inv(s) && BlockedBy(s, c, d)
    ensures forall a :: Owned(s, c, a) ==> a < Awaited(s, c)
    ensures Owned(s, d, Awaited(s, c))
  {
    assert Owns(s.holder, c, LockedSet(s.conns[c]));
    WaitsAbove(s.conns[c]);
  }

  // Along a chain of waits the awaited addresses go up.
  lemma {:induction false} ChainAscends(s: State, chain: seq<nat>)
    requires Inv(s) && |chain| >= 2
    requires forall i :: 0 <= i < |chain| - 1 ==> BlockedBy(s, chain[i], chain[i + 1])
    ensures forall a :: Owned(s, chain[0], a) ==> a < Awaited(s, chain[|chain| - 2])
    ensures Owned(s, chain[|chain| - 1], Awaited(s, chain[|chain| - 2]))
    decreases |chain|
  {
    var n := |chain|;
    BlockAscends(s, chain[n - 2], chain[n - 1]);
    if n > 2 {
      ChainAscends(s, chain[..n - 1]);
    }
  }

  // Deadlock freedom: in no reachable state do waits form a cycle.
  lemma NoCycle(s: State, events: seq<Event>, cycle: seq<nat>)
    requires Initial(s) && Runs(s, events) && cycle != []
    ensures var closed := cycle + [cycle[0]];
      exists i :: 0 <= i < |cycle| && !BlockedBy(After(s, events), closed[i], closed[i + 1])
  {
    InitialInv(s);
    RunInv(s, events);
    NoCycleNow(After(s, events), cycle);
  }

  lemma NoCycleNow(s: State, cycle: seq<nat>)
    requires Inv(s) && cycle != []
    ensures var closed := cycle + [cycle[0]];
      exists i :: 0 <= i < |cycle| && !BlockedBy(s, closed[i], closed[i + 1])
  {
    var closed := cycle + [cycle[0]];
    assert closed[|cycle|] == closed[0];
    if forall i :: 0 <= i < |cycle| ==> BlockedBy(s, closed[i], closed[i + 1]) {
      ChainAscends(s, closed);
    }
  }

  // Some owner of a mutex is not waiting: it can step, or it is between calls.
  predicate FreeOwner(s: State, d: nat) {
    && d < |s.conns| && Fits(s.conns[d]) && (exists a :: a in s.holder && s.holder[a] == d)
    && ((s.conns[d].at.Idle? && s.conns[d].todo == []) || Possible(s, Step(d, false)))
  }

  lemma {:induction false} Unblocked(s: State, c: nat, d: nat)
    requires Inv(s) && BlockedBy(s, c, d)
    ensures exists e :: FreeOwner(s, e)
    decreases set a | a in s.holder && a > NextOp(s.conns[c]).pBt
  {
    var k := s.conns[d];
    var a := NextOp(s.conns[c]).pBt;
    if NextOp(k).Wait? && NextOp(k).pBt in s.holder {
      var b := NextOp(k).pBt;
      assert Owns(s.holder, d, LockedSet(k));
      WaitsAbove(k);
      var aboveA, aboveB := set x | x in s.holder && x > a, set x | x in s.holder && x > b;
      assert b in aboveA && b !in aboveB && aboveB < aboveA;
      Unblocked(s, d, s.holder[b]);
    } else {
      assert FreeOwner(s, d);
    }
  }

  lemma SomeOwnerMoves(s: State, events: seq<Event>, c: nat, d: nat)
    requires Initial(s) && Runs(s, events) && BlockedBy(After(s, events), c, d)
    ensures exists e :: FreeOwner(After(s, events), e)
  {
    InitialInv(s);
    RunInv(s, events);
    Unblocked(After(s, events), c, d);
  }

  // Connection c is inside sqlite3BtreeEnter before every event.
  predicate Inside(s: State, events: seq<Event>, c: nat)
    requires Runs(s, events)
  {
    events == [] ||
    (var before := events[..|events| - 1];
     Inside(s, before, c) && c < |After(s, before).conns| && !After(s, before).conns[c].at.Idle?)
  }

  function OwnSteps(events: seq<Event>, c: nat): nat {
    if events == [] then 0 else OwnSteps(events[..|events| - 1], c) + if events[|events| - 1].c == c then 1 else 0
  }

  lemma {:induction false} InsideSteps(s: State, events: seq<Event>, c: nat)
    requires Inv(s) && Runs(s, events) && c < |s.conns| && Inside(s, events, c)
    ensures Inv(After(s, events)) && |After(s, events).conns| == |s.conns|
    ensures SameWishes(s.conns[c], After(s, events).conns[c])
    ensures OwnSteps(events, c) + StepsLeft(After(s, events).conns[c]) <= StepsLeft(s.conns[c])
  {
    RunInv(s, events);
    if events != [] {
      var before := events[..|events| - 1];
      InsideSteps(s, before, c);
      var e := events[|events| - 1];
      if e.c == c {
        StepInside(After(s, before).conns[c], e.got);
      }
    }
  }

  // The careful lock: whatever the other connections do meanwhile, when
  // sqlite3BtreeEnter(p) returns, the connection owns again exactly what it
  // owned before the try-lock, and p; and it returns after a bounded number of
  // its own steps.
  lemma EnterRestores(s: State, start: seq<Event>, events: seq<Event>, c: nat)
    requires Initial(s) && Runs(s, start) && c < |After(s, start).conns|
    requires var t := After(s, start); t.conns[c].at.Trying? && Runs(t, events) && Inside(t, events, c)
    ensures |After(After(s, start), events).conns| == |After(s, start).conns|
    ensures var t := After(s, start);
      var k, k' := t.conns[c], After(t, events).conns[c];
      && OwnSteps(events, c) <= 2 * |k.list| + 2
      && (k'.at.Idle? ==> k.at.p < |k.list| && LockedSet(k') == LockedSet(k) + {k.list[k.at.p].pBt})
  {
    InitialInv(s);
    RunInv(s, start);
    var t := After(s, start);
    InsideSteps(t, events, c);
    if After(t, events).conns[c].at.Idle? {
      Restored(t.conns[c], After(t, events).conns[c]);
    }
  }

  lemma Restored(k: Connection, k': Connection)
    requires Good(k) && Good(k') && k.at.Trying? && k'.at.Idle? && SameWishes(k, k')
    ensures LockedSet(k') == LockedSet(k) + {k.list[k.at.p].pBt}
  {
    forall i | 0 <= i < |k.list| ensures k'.list[i].locked <==> k.list[i].locked || i == k.at.p {
    }
  }

  // How often Btree i of connection c was entered less how often it was left.
  function Net(s: State, events: seq<Event>, c: nat, i: nat): int
    requires c < |s.conns|
  {
    if events == [] then 0
    else
      Net(s, events[..|events| - 1], c, i) +
      match events[|events| - 1]
      case Step(_, _) => 0
      case Begin(d, request) => if d == c then Change(s.conns[c].aDb, request, i) else 0
  }

  function Change(aDb: seq<nat>, request: Request, i: nat): int {
    match request
    case EnterOne(p) => if p == i then 1 else 0
    case LeaveOne(p) => if p == i then -1 else 0
    case EnterAll => if i in aDb then 1 else 0
    case LeaveAll => if i in aDb then -1 else 0
  }

  // Calls still to be made, counted the same way.
  function Pending(todo: seq<Call>, i: nat): int {
    (if Enter(i) in todo then 1 else 0) - (if Leave(i) in todo then 1 else 0)
  }

  lemma CallsPending(k: Connection, request: Request, i: nat)
    requires Good(k) && MayRequest(k, request)
    ensures Pending(Calls(k, request), i) == Change(k.aDb, request, i)
  {
    var todo := Calls(k, request);
    if (request.EnterAll? || request.LeaveAll?) && i in k.aDb {
      var j :| 0 <= j < |k.aDb| && k.aDb[j] == i;
      assert todo[j].p == i;
    }
  }

  lemma StepPending(k: Connection, got: bool, i: nat)
    requires Good(k) && (got ==> NextOp(k).Try?) && i < |k.list|
    ensures var k' := Next(k, got);
      |k'.list| == |k.list| && k'.list[i].wantToLock + Pending(k'.todo, i) == k.list[i].wantToLock + Pending(k.todo, i)
  {
    if k.at.Idle? && k.todo != [] {
      TailPending(k.todo, i);
      assert Next(k, got).todo == k.todo[1..];
      assert Pending([k.todo[0]], i) == if k.todo[0].p != i then 0 else if k.todo[0].Enter? then 1 else -1;
    }
  }

  lemma TailPending(todo: seq<Call>, i: nat)
    requires todo != [] && forall j :: 0 < j < |todo| ==> todo[0] != todo[j]
    ensures Pending(todo, i) == Pending(todo[1..], i) + Pending([todo[0]], i)
  {
    assert forall call: Call :: call in todo <==> call in [todo[0]] + todo[1..];
  }

  lemma {:induction false} WishesCount(s: State, events: seq<Event>, c: nat, i: nat)
    requires Initial(s) && Runs(s, events) && c < |s.conns| && i < |s.conns[c].list|
    ensures var s' := After(s, events);
      && Inv(s') && |s'.conns| == |s.conns| && SameList(s.conns[c], s'.conns[c])
      && s'.conns[c].list[i].wantToLock + Pending(s'.conns[c].todo, i) == Net(s, events, c, i)
  {
    InitialInv(s);
    RunInv(s, events);
    if events != [] {
      var before := events[..|events| - 1];
      WishesCount(s, before, c, i);
      ApplyCounts(After(s, before), events[|events| - 1], c, i);
    }
  }

  // The net count that one event adds.
  function Added(k: Connection, e: Event, c: nat, i: nat): int {
    match e
    case Step(_, _) => 0
    case Begin(d, request) => if d == c then Change(k.aDb, request, i) else 0
  }

  lemma ApplyCounts(s: State, e: Event, c: nat, i: nat)
    requires Inv(s) && Possible(s, e) && c < |s.conns| && i < |s.conns[c].list|
    ensures var k, k' := s.conns[c], Apply(s, e).conns[c];
      && SameList(k, k')
      && k'.list[i].wantToLock + Pending(k'.todo, i) == k.list[i].wantToLock + Pending(k.todo, i) + Added(k, e, c, i)
  {
    ApplyMoves(s, e);
    if e.c == c {
      MovedCounts(s.conns[c], e, c, i);
    }
  }

  // Where an event takes its connection.
  function MovedBy(k: Connection, e: Event): Connection
    requires Fits(k)
  {
    match e
    case Begin(_, request) => k.(todo := Calls(k, request))
    case Step(_, got) => Next(k, got)
  }

  lemma ApplyMoves(s: State, e: Event)
    requires Possible(s, e)
    ensures Apply(s, e).conns == s.conns[e.c := MovedBy(s.conns[e.c], e)]
  {
  }

  lemma MovedCounts(k: Connection, e: Event, c: nat, i: nat)
    requires Good(k) && e.c == c && i < |k.list|
    requires match e case Begin(_, request) => MayRequest(k, request) case Step(_, got) => got ==> NextOp(k).Try?
    ensures var k' := MovedBy(k, e);
      && SameList(k, k')
      && k'.list[i].wantToLock + Pending(k'.todo, i) == k.list[i].wantToLock + Pending(k.todo, i) + Added(k, e, c, i)
  {
    match e
    case Begin(_, request) =>
      CallsPending(k, request, i);
    case Step(_, got) =>
      StepPending(k, got, i);
      StepGood(k, got);
  }

  // Connection c has not returned before any of the events.
  predicate Busy(s: State, events: seq<Event>, c: nat)
    requires Runs(s, events)
  {
    events == [] ||
    (var before := events[..|events| - 1];
     Busy(s, before, c) && c < |After(s, before).conns| && !Returned(After(s, before).conns[c]))
  }

  // Wishes and queued calls together do not change, and own steps use up work.
  predicate WorksOff(k: Connection, k': Connection, steps: nat) {
    && Fits(k) && Fits(k') && SameList(k, k') && steps + Work(k') <= Work(k)
    && forall i :: 0 <= i < |k.list| ==>
         k'.list[i].wantToLock + Pending(k'.todo, i) == k.list[i].wantToLock + Pending(k.todo, i)
  }

  lemma WorkedOff(s: State, e: Event, c: nat, k: Connection, steps: nat)
    requires Inv(s) && Possible(s, e) && c < |s.conns| && !Returned(s.conns[c]) && WorksOff(k, s.conns[c], steps)
    ensures c < |Apply(s, e).conns| && WorksOff(k, Apply(s, e).conns[c], steps + if e.c == c then 1 else 0)
  {
    ApplyMoves(s, e);
    if e.c == c {
      assert e.Step?;
      StepWorksOff(s.conns[c], e.got);
      WorksOffTwice(k, s.conns[c], Next(s.conns[c], e.got), steps, 1);
    }
  }

  lemma StepWorksOff(k: Connection, got: bool)
    requires Good(k) && (got ==> NextOp(k).Try?) && !Returned(k)
    ensures Fits(Next(k, got)) && WorksOff(k, Next(k, got), 1)
  {
    StepGood(k, got);
    StepWorks(k, got);
    forall i | 0 <= i < |k.list|
      ensures Next(k, got).list[i].wantToLock + Pending(Next(k, got).todo, i)
        == k.list[i].wantToLock + Pending(k.todo, i)
    {
      StepPending(k, got, i);
    }
  }

  lemma WorksOffTwice(a: Connection, b: Connection, c: Connection, m: nat, n: nat)
    requires WorksOff(a, b, m) && WorksOff(b, c, n)
    ensures WorksOff(a, c, m + n)
  {
  }

  lemma {:induction false} BusyWorksOff(s: State, events: seq<Event>, c: nat)
    requires Inv(s) && Runs(s, events) && c < |s.conns| && Busy(s, events, c)
    ensures Inv(After(s, events)) && c < |After(s, events).conns|
    ensures WorksOff(s.conns[c], After(s, events).conns[c], OwnSteps(events, c))
  {
    RunInv(s, events);
    if events != [] {
      var before := events[..|events| - 1];
      BusyWorksOff(s, before, c);
      WorkedOff(After(s, before), events[|events| - 1], c, s.conns[c], OwnSteps(before, c));
    }
  }

  // What a request asks of the thread: it is between calls, and leaves only what
  // it has entered.
  predicate Fair(k: Connection, request: Request) {
    && Returned(k)
    && (request.EnterOne? || request.LeaveOne? ==> request.p < |k.list|)
    && forall i :: 0 <= i < |k.list| ==> k.list[i].wantToLock + Change(k.aDb, request, i) >= 0
  }

  lemma FairPossible(s: State, c: nat, request: Request)
    requires Inv(s) && c < |s.conns| && Fair(s.conns[c], request)
    ensures Possible(s, Begin(c, request))
  {
    var k := s.conns[c];
    if request.LeaveOne? {
      assert Change(k.aDb, request, request.p) == -1;
    } else if request.LeaveAll? {
      forall j | 0 <= j < |k.aDb| ensures k.list[k.aDb[j]].wantToLock > 0 {
        assert Change(k.aDb, request, k.aDb[j]) == -1;
      }
    }
  }

  // Calls return: from a fair request on, whatever the other connections do, the
  // thread takes a bounded number of steps until it is between calls again.  Then
  // every wish has changed as requested, and it owns exactly what it wishes for.
  lemma CallReturns(s: State, start: seq<Event>, c: nat, request: Request, events: seq<Event>)
    requires Initial(s) && Runs(s, start) && c < |After(s, start).conns| && Fair(After(s, start).conns[c], request)
    ensures Possible(After(s, start), Begin(c, request))
    ensures var t := Apply(After(s, start), Begin(c, request));
      Runs(t, events) && Busy(t, events, c) ==>
      CallDone(After(s, start).conns[c], After(t, events), c, request, OwnSteps(events, c))
  {
    InitialInv(s);
    RunInv(s, start);
    var u := After(s, start);
    FairPossible(u, c, request);
    var t := Apply(u, Begin(c, request));
    ApplyInv(u, Begin(c, request));
    if Runs(t, events) && Busy(t, events, c) {
      BusyWorksOff(t, events, c);
      CallWorksOff(u.conns[c], t.conns[c], After(t, events), c, request, OwnSteps(events, c));
    }
  }

  // After that many own steps of the call.
  predicate CallDone(k: Connection, s: State, c: nat, request: Request, steps: nat) {
    && c < |s.conns| && SameList(k, s.conns[c])
    && steps <= StepsFor(|Calls(k, request)|, |k.list|)
    && (steps == StepsFor(|Calls(k, request)|, |k.list|) ==> Returned(s.conns[c]))
    && (Returned(s.conns[c]) ==> forall i :: 0 <= i < |k.list| ==>
          (var b := s.conns[c].list[i];
           b.wantToLock == k.list[i].wantToLock + Change(k.aDb, request, i) &&
           (b.wantToLock > 0 <==> b.pBt in s.holder && s.holder[b.pBt] == c)))
  }

  lemma CallWorksOff(k: Connection, begun: Connection, s: State, c: nat, request: Request, steps: nat)
    requires Good(k) && Fair(k, request) && MayRequest(k, request) && begun == k.(todo := Calls(k, request))
    requires Inv(s) && c < |s.conns| && WorksOff(begun, s.conns[c], steps)
    ensures CallDone(k, s, c, request, steps)
  {
    assert Work(begun) == StepsFor(|Calls(k, request)|, |k.list|);
    if Returned(s.conns[c]) {
      forall i | 0 <= i < |k.list|
        ensures var b := s.conns[c].list[i];
          b.wantToLock == k.list[i].wantToLock + Change(k.aDb, request, i) &&
          (b.wantToLock > 0 <==> b.pBt in s.holder && s.holder[b.pBt] == c)
      {
        CallsPending(k, request, i);
        IdleOwns(s, c, i);
      }
    } else {
      WorkLeft(s.conns[c]);
    }
  }

  lemma WorkLeft(k: Connection)
    requires Good(k) && !Returned(k)
    ensures Work(k) > 0
  {
  }

  lemma IdleOwns(s: State, c: nat, i: nat)
    requires Inv(s) && c < |s.conns| && s.conns[c].at.Idle? && i < |s.conns[c].list|
    ensures var b := s.conns[c].list[i]; b.wantToLock > 0 <==> b.pBt in s.holder && s.holder[b.pBt] == c
  {
    var k := s.conns[c];
    var b := k.list[i];
    assert Owns(s.holder, c, LockedSet(k));
    if b.pBt in LockedSet(k) {
      var j :| 0 <= j < |k.list| && k.list[j].locked && k.list[j].pBt == b.pBt;
      assert j == i;
    }
  }

  // A thread that has not returned can step, unless it waits for another owner.
  lemma StepsUnlessBlocked(s: State, events: seq<Event>, c: nat)
    requires Initial(s) && Runs(s, events) && c < |After(s, events).conns| && !Returned(After(s, events).conns[c])
    ensures Possible(After(s, events), Step(c, false)) || exists d :: d != c && BlockedBy(After(s, events), c, d)
  {
    InitialInv(s);
    RunInv(s, events);
    var t := After(s, events);
    var k := t.conns[c];
    if NextOp(k).Wait? && NextOp(k).pBt in t.holder {
      StepLocked(k);
      assert Owns(t.holder, c, LockedSet(k));
      assert BlockedBy(t, c, t.holder[NextOp(k).pBt]);
    }
  }

  // When all calls have returned, a connection owns the mutex of a Btree if and
  // only if it entered it more often than it left it; after a balanced run it
  // owns nothing.
  lemma BalancedReleases(s: State, events: seq<Event>, c: nat)
    requires Initial(s) && Runs(s, events) && c < |s.conns| && c < |After(s, events).conns|
    requires var k := After(s, events).conns[c]; k.at.Idle? && k.todo == []
    ensures forall i :: 0 <= i < |s.conns[c].list| ==>
      var a := s.conns[c].list[i].pBt;
      var holder := After(s, events).holder;
      (a in holder && holder[a] == c <==> Net(s, events, c, i) > 0)
    ensures (forall i :: 0 <= i < |s.conns[c].list| ==> Net(s, events, c, i) == 0) ==>
            forall a :: a in After(s, events).holder ==> After(s, events).holder[a] != c
  {
    InitialInv(s);
    RunInv(s, events);
    var s' := After(s, events);
    var k := s'.conns[c];
    forall i | 0 <= i < |s.conns[c].list|
      ensures var a := s.conns[c].list[i].pBt; (a in s'.holder && s'.holder[a] == c <==> Net(s, events, c, i) > 0)
      ensures i < |k.list| && (k.list[i].locked <==> Net(s, events, c, i) > 0)
    {
      WishesCount(s, events, c, i);
      LocksMatchWishes(s, events, c, i);
    }
    if forall i :: 0 <= i < |s.conns[c].list| ==> Net(s, events, c, i) == 0 {
      assert Owns(s'.holder, c, LockedSet(k));
      SameLength(s, events, c);
      assert LockedSet(k) == {};
    }
  }

  lemma {:induction false} SameLength(s: State, events: seq<Event>, c: nat)
    requires Inv(s) && Runs(s, events) && c < |s.conns|
    ensures |After(s, events).conns| == |s.conns| && |After(s, events).conns[c].list| == |s.conns[c].list|
  {
    if events != [] {
      var before := events[..|events| - 1];
      SameLength(s, before, c);
      RunInv(s, before);
      ApplyLength(After(s, before), events[|events| - 1], c);
    }
  }

  lemma ApplyLength(s: State, e: Event, c: nat)
    requires Inv(s) && Possible(s, e) && c < |s.conns|
    ensures |Apply(s, e).conns| == |s.conns| && |Apply(s, e).conns[c].list| == |s.conns[c].list|
  {
    ApplyMoves(s, e);
    if e.c == c && e.Step? {
      StepGood(s.conns[c], e.got);
    }
  }
}
