/**
 The timer queue of an event loop as a step system: `timers_` ordered by expiration and
 `activeTimers_` keyed by identity, over heap-allocated timers whose addresses the allocator may use
 again, and one underlying wait.  The expiry handler is cut at the user callbacks, between which
 other operations run.
 */
module TimerQueueSteps {
  import opened Machine
  import opened TimerLists

  const UINTPTR_MAX := TWO_64 - 1
  const MICRO_PER_SECOND := 1000 * 1000

  datatype Timer = Timer(expiration: int, repeat: bool, delta: nat, sequence: int)

  type Heap = map<Addr, Timer>

  /** What `activeTimers_` holds, and what a `TimerId` names. */
  datatype Id = Id(addr: Addr, sequence: int)

  datatype Wait = Unarmed | Armed(at: int, wake: int)

  datatype State = State(
    heap: Heap,
    numCreated: nat,
    posted: set<Addr>,        // created, and on their way to the loop thread
    timers: seq<Entry>,
    active: set<Id>,
    canceling: set<Id>,
    calling: bool,            // between the detachment of a batch and its reset
    batch: seq<Entry>,
    ran: nat,                 // how many callbacks of the batch have begun
    passTime: int,
    wait: Wait,
    clock: int)

  // ------------------------------------------------------------------ operations

  function IdOf(s: State, a: Addr): Id
    requires a in s.heap
  {
    Id(a, s.heap[a].sequence)
  }

  /** `new Timer` on any thread, its insertion posted to the loop. */
  function Create(s: State, a: Addr, expiration: int, repeat: bool, delta: nat): State {
    s.(heap := s.heap[a := Timer(expiration, repeat, delta, s.numCreated + 1)], numCreated := s.numCreated + 1,
      posted := s.posted + {a})
  }

  predicate EarliestChanged(s: State, when: int) {
    s.timers == [] || when < s.timers[0].when
  }

  function Insert(s: State, a: Addr): State
    requires a in s.heap
  {
    s.(timers := Emplace(s.timers, Entry(s.heap[a].expiration, a)), active := s.active + {IdOf(s, a)})
  }

  /** Whole seconds, cut, after a floor of 100 microseconds. */
  function WakeTime(when: int, now: int): int {
    now + (if when - now < 100 then 100 else when - now) / MICRO_PER_SECOND * MICRO_PER_SECOND
  }

  function ResetTimer(s: State, when: int, now: int): State {
    s.(wait := Armed(now, WakeTime(when, now)), clock := now)
  }

  function AddInLoop(s: State, a: Addr, now: int): State
    requires a in s.heap
  {
    var t := Insert(s.(posted := s.posted - {a}, clock := now), a);
    if EarliestChanged(s, s.heap[a].expiration) then ResetTimer(t, s.heap[a].expiration, now) else t
  }

  function Cancel(s: State, id: Id): State
    requires id in s.active ==> id.addr in s.heap
  {
    if id in s.active then
      s.(timers := Erase(s.timers, Entry(s.heap[id.addr].expiration, id.addr)), active := s.active - {id},
        heap := s.heap - {id.addr})
    else if s.calling then s.(canceling := s.canceling + {id})
    else s
  }

  function IdsOf(heap: Heap, batch: seq<Entry>): set<Id> {
    set i | 0 <= i < |batch| && batch[i].addr in heap :: Id(batch[i].addr, heap[batch[i].addr].sequence)
  }

  /** The split at `now`: the sentinel address stands above every real one. */
  function Expired(timers: seq<Entry>, now: int): nat {
    LowerBound(timers, Entry(now, UINTPTR_MAX))
  }

  function Detached(s: State, now: int): State {
    var k := Expired(s.timers, now);
    s.(timers := s.timers[k..], active := s.active - IdsOf(s.heap, s.timers[..k]))
  }

  function Calls(s: State, expired: seq<Entry>, now: int, stale: bool): State {
    s.(canceling := {}, calling := true, batch := expired, ran := 0, passTime := now,
      wait := if stale then s.wait else Unarmed, clock := now)
  }

  function Begin(s: State, now: int, stale: bool): State {
    Calls(Detached(s, now), s.timers[..Expired(s.timers, now)], now, stale)
  }

  predicate Returns(s: State, a: Addr)
    requires a in s.heap
  {
    s.heap[a].repeat && IdOf(s, a) !in s.canceling
  }

  function Restarted(s: State): State
    requires s.batch != [] && s.batch[0].addr in s.heap
  {
    var a := s.batch[0].addr;
    s.(batch := s.batch[1..], heap := s.heap[a := s.heap[a].(expiration := s.passTime + s.heap[a].delta)])
  }

  /** The first timer left in the batch is restarted, or deleted. */
  function ResetOne(s: State): State
    requires s.batch != [] && s.batch[0].addr in s.heap
  {
    var a := s.batch[0].addr;
    if Returns(s, a) then Insert(Restarted(s), a) else s.(batch := s.batch[1..], heap := s.heap - {a})
  }

  // ------------------------------------------------------------------ invariant

  ghost predicate EntryOk(s: State, e: Entry) {
    e.addr in s.heap && s.heap[e.addr].expiration == e.when && IdOf(s, e.addr) in s.active
  }

  ghost predicate ActiveOk(s: State, id: Id) {
    id.addr in s.heap && IdOf(s, id.addr) == id && Entry(s.heap[id.addr].expiration, id.addr) in s.timers
  }

  /** A timer of the running batch is alive, due, and pending nowhere. */
  ghost predicate BatchOk(s: State, e: Entry) {
    && e.addr in s.heap && s.heap[e.addr].expiration == e.when && e.when <= s.passTime
    && IdOf(s, e.addr) !in s.active && e.addr !in s.posted
  }

  predicate InBatch(s: State, a: Addr) {
    exists i :: 0 <= i < |s.batch| && s.batch[i].addr == a
  }

  /** Every timer is owned in one place, and known by a number of its own. */
  ghost predicate HeapOk(s: State, a: Addr)
    requires a in s.heap
  {
    && a < UINTPTR_MAX && 1 <= s.heap[a].sequence <= s.numCreated
    && (a in s.posted || IdOf(s, a) in s.active || InBatch(s, a))
    && (a in s.posted ==> IdOf(s, a) !in s.active)
  }

  /** No two timers on the heap have the same number. */
  ghost predicate UniqueNumbers(heap: Heap) {
    forall a, b :: a in heap && b in heap && heap[a].sequence == heap[b].sequence ==> a == b
  }

  ghost predicate Core(s: State) {
    && Sorted(s.timers)
    && (forall e :: e in s.timers ==> EntryOk(s, e))
    && (forall id :: id in s.active ==> ActiveOk(s, id))
    && (forall i :: 0 <= i < |s.batch| ==> BatchOk(s, s.batch[i]))
    && (forall i, j :: 0 <= i < j < |s.batch| ==> s.batch[i].addr != s.batch[j].addr)
    && (forall a :: a in s.heap ==> HeapOk(s, a))
    && UniqueNumbers(s.heap)
    && s.posted <= s.heap.Keys
    && 0 < s.clock && (s.wait.Armed? ==> s.wait.at <= s.clock)
  }

  /** No timer that is pending can be waited for too long. */
  ghost predicate WakeOk(s: State) {
    s.timers != [] ==> s.wait.Armed? && (s.wait.wake <= s.wait.at || s.wait.wake <= s.timers[0].when)
  }

  ghost predicate Inv(s: State) {
    && Core(s)
    && (if s.calling then 0 < s.passTime <= s.clock && s.ran <= |s.batch| else s.batch == [])
    && (!s.calling || (s.timers != [] && s.timers[0].when <= s.passTime) ==> WakeOk(s))
  }

  /** The wait ends neither after the expiration nor a whole second before it, and at once within the floor. */
  lemma WakeInTime(when: int, now: int)
    ensures now <= WakeTime(when, now)
    ensures WakeTime(when, now) <= now || WakeTime(when, now) <= when
    ensures when - now >= 100 ==> when - MICRO_PER_SECOND < WakeTime(when, now) <= when
    ensures when - now < 100 ==> WakeTime(when, now) == now
    ensures (WakeTime(when, now) - now) % MICRO_PER_SECOND == 0
  {
  }

  lemma CreateKeepsInv(s: State, a: Addr, expiration: int, repeat: bool, delta: nat)
    requires Inv(s) && a !in s.heap && a < UINTPTR_MAX
    ensures Inv(Create(s, a, expiration, repeat, delta))
  {
    var t := Create(s, a, expiration, repeat, delta);
    forall e | e in t.timers
      ensures EntryOk(t, e)
    {
      assert EntryOk(s, e);
    }
    forall id | id in t.active
      ensures ActiveOk(t, id)
    {
      assert ActiveOk(s, id);
    }
    forall i | 0 <= i < |t.batch|
      ensures BatchOk(t, t.batch[i])
    {
      assert BatchOk(s, s.batch[i]);
    }
    forall b | b in t.heap
      ensures HeapOk(t, b)
    {
      assert b != a ==> HeapOk(s, b);
      assert Id(a, s.numCreated + 1) in s.active ==> ActiveOk(s, Id(a, s.numCreated + 1));
    }
  }

  /** A new or restarted timer, so far owned nowhere, becomes pending. */
  ghost predicate Insertable(s: State, a: Addr) {
    && a in s.heap && Core(s.(heap := s.heap - {a}))
    && a < UINTPTR_MAX && 1 <= s.heap[a].sequence <= s.numCreated
    && (forall b :: b in s.heap && s.heap[b].sequence == s.heap[a].sequence ==> b == a)
  }

  lemma InsertNew(s: State, a: Addr)
    requires Insertable(s, a)
    ensures Entry(s.heap[a].expiration, a) !in s.timers && IdOf(s, a) !in s.active && a !in s.posted
    ensures !Found(s.timers, Entry(s.heap[a].expiration, a))
  {
  }

  lemma InsertKeepsIndexes(s: State, a: Addr)
    requires Insertable(s, a)
    ensures var t := Insert(s, a);
      Sorted(t.timers) && (forall e :: e in t.timers ==> EntryOk(t, e)) &&
      (forall id :: id in t.active ==> ActiveOk(t, id))
  {
    var r, t := s.(heap := s.heap - {a}), Insert(s, a);
    var e := Entry(s.heap[a].expiration, a);
    EmplaceExact(s.timers, e);
    forall x | x in t.timers
      ensures EntryOk(t, x)
    {
      assert x != e ==> EntryOk(r, x);
    }
    forall id | id in t.active
      ensures ActiveOk(t, id)
    {
      assert id != IdOf(s, a) ==> ActiveOk(r, id);
    }
  }

  lemma InsertKeepsCore(s: State, a: Addr)
    requires Insertable(s, a)
    ensures Core(Insert(s, a))
  {
    var r, t := s.(heap := s.heap - {a}), Insert(s, a);
    InsertNew(s, a);
    InsertKeepsIndexes(s, a);
    forall b, c | b in t.heap && c in t.heap && t.heap[b].sequence == t.heap[c].sequence
      ensures b == c
    {
      assert b != a && c != a ==> b in r.heap && c in r.heap && r.heap[b].sequence == r.heap[c].sequence;
    }
    forall i | 0 <= i < |t.batch|
      ensures BatchOk(t, t.batch[i])
    {
      assert BatchOk(r, r.batch[i]);
    }
    forall b | b in t.heap
      ensures HeapOk(t, b)
    {
      assert b != a ==> HeapOk(r, b) && InBatch(r, b) == InBatch(t, b);
    }
  }

  lemma UnpostKeepsCore(s: State, a: Addr)
    requires Core(s) && a in s.posted
    ensures Core(s.(posted := s.posted - {a}, heap := s.heap - {a}))
  {
    assert HeapOk(s, a);
    FewerKeepsCore(s, s.(posted := s.posted - {a}, heap := s.heap - {a}), {a});
  }

  /** Deletion of a pending timer, from both indexes and the heap. */
  lemma CancelKeepsCore(s: State, id: Id)
    requires Core(s)
    ensures id in s.active ==> ActiveOk(s, id)
    ensures Core(Cancel(s, id))
  {
    assert id in s.active ==> ActiveOk(s, id);
    if id in s.active {
      EraseExact(s.timers, Entry(s.heap[id.addr].expiration, id.addr));
      assert HeapOk(s, id.addr);
      FewerKeepsCore(s, Cancel(s, id), {id.addr});
    } else {
      FewerKeepsCore(s, Cancel(s, id), {});
    }
  }

  /** Taking some timers away, from the heap and wherever they were owned, keeps the rest consistent. */
  lemma FewerKeepsCore(s: State, t: State, gone: set<Addr>)
    requires Core(s)
    requires t.heap == s.heap - gone && t.posted == s.posted - gone && t.numCreated == s.numCreated &&
      t.passTime == s.passTime
    requires Sorted(t.timers) && forall e :: e in t.timers ==> e in s.timers
    requires forall e :: e in s.timers && e.addr !in gone ==> e in t.timers
    requires forall id :: id in t.active <==> id in s.active && id.addr !in gone
    requires t.batch == s.batch || (s.batch != [] && s.batch[0].addr in gone && t.batch == s.batch[1..])
    requires forall e :: e in t.batch || e in t.timers ==> e.addr !in gone
    requires 0 < t.clock && (t.wait.Armed? ==> t.wait.at <= t.clock)
    ensures Core(t)
  {
    forall e | e in t.timers
      ensures EntryOk(t, e)
    {
      assert EntryOk(s, e);
    }
    forall id | id in t.active
      ensures ActiveOk(t, id)
    {
      assert ActiveOk(s, id);
    }
    forall i | 0 <= i < |t.batch|
      ensures BatchOk(t, t.batch[i])
    {
      assert t.batch[i] in t.batch && BatchOk(s, s.batch[if t.batch == s.batch then i else i + 1]);
    }
    forall a | a in t.heap
      ensures HeapOk(t, a)
    {
      assert HeapOk(s, a);
      if InBatch(s, a) {
        var i :| 0 <= i < |s.batch| && s.batch[i].addr == a;
        assert t.batch[if t.batch == s.batch then i else i - 1].addr == a;
      }
    }
  }

  lemma SameTimersCore(s: State, t: State)
    requires Core(s)
    requires t.heap == s.heap && t.numCreated == s.numCreated && t.posted == s.posted && t.timers == s.timers
    requires t.active == s.active && t.batch == s.batch && t.passTime == s.passTime
    requires 0 < t.clock && (t.wait.Armed? ==> t.wait.at <= t.clock)
    ensures Core(t)
  {
  }

  lemma AddKeepsInv(s: State, a: Addr, now: int)
    requires Inv(s) && a in s.posted && s.clock <= now
    ensures Inv(AddInLoop(s, a, now))
  {
    var when := s.heap[a].expiration;
    var r := s.(posted := s.posted - {a}, clock := now);
    var t := Insert(r, a);
    assert HeapOk(s, a);
    UnpostKeepsCore(s, a);
    SameTimersCore(s.(posted := s.posted - {a}, heap := s.heap - {a}), r.(heap := r.heap - {a}));
    InsertKeepsCore(r, a);
    EmplaceExact(s.timers, Entry(when, a));
    WakeInTime(when, now);
    if EarliestChanged(s, when) {
      SameTimersCore(t, ResetTimer(t, when, now));
    }
  }

  lemma CancelKeepsInv(s: State, id: Id)
    requires Inv(s)
    ensures id in s.active ==> ActiveOk(s, id)
    ensures Inv(Cancel(s, id))
  {
    CancelKeepsCore(s, id);
    if id in s.active {
      var e := Entry(s.heap[id.addr].expiration, id.addr);
      EraseExact(s.timers, e);
      var t := Cancel(s, id);
      if t.timers != [] {
        assert t.timers[0] in s.timers;
      }
    }
  }

  // ------------------------------------------------------------------ the expiry pass

  /** The batch is all and only the pending timers due at `now`, in order of expiration; the rest stay. */
  lemma ExpiredExact(s: State, now: int)
    requires Core(s)
    ensures var k := Expired(s.timers, now);
      (forall i :: 0 <= i < k ==> s.timers[i].when <= now) &&
      (forall i :: k <= i < |s.timers| ==> now < s.timers[i].when) &&
      (forall i, j :: 0 <= i < j < k ==> s.timers[i].when <= s.timers[j].when && s.timers[i].addr != s.timers[j].addr)
  {
    var sentinel := Entry(now, UINTPTR_MAX);
    forall i | 0 <= i < |s.timers|
      ensures Less(s.timers[i], sentinel) <==> s.timers[i].when <= now
    {
      assert EntryOk(s, s.timers[i]) && HeapOk(s, s.timers[i].addr);
    }
    forall i, j | 0 <= i < j < |s.timers|
      ensures s.timers[i].addr != s.timers[j].addr && s.timers[i].when <= s.timers[j].when
    {
      assert EntryOk(s, s.timers[i]) && EntryOk(s, s.timers[j]) && Less(s.timers[i], s.timers[j]);
    }
  }

  /** An id is detached with the batch exactly when its entry is. */
  lemma DetachedExact(s: State, k: nat, id: Id)
    requires Core(s) && k <= |s.timers| && id in s.active
    ensures id in IdsOf(s.heap, s.timers[..k]) <==> Entry(s.heap[id.addr].expiration, id.addr) in s.timers[..k]
    ensures id in IdsOf(s.heap, s.timers[..k]) <==> Entry(s.heap[id.addr].expiration, id.addr) !in s.timers[k..]
  {
    assert ActiveOk(s, id);
    var e := Entry(s.heap[id.addr].expiration, id.addr);
    assert s.timers == s.timers[..k] + s.timers[k..];
    if e in s.timers[..k] {
      var i :| 0 <= i < k && s.timers[i] == e;
      assert s.timers[..k][i].addr == id.addr;
    }
    if id in IdsOf(s.heap, s.timers[..k]) {
      var i :| 0 <= i < k && s.timers[..k][i].addr in s.heap && IdOf(s, s.timers[..k][i].addr) == id;
      assert EntryOk(s, s.timers[i]);
    }
  }

  lemma BeginKeepsIndexes(s: State, now: int, stale: bool)
    requires Core(s)
    ensures var t := Begin(s, now, stale);
      (forall e :: e in t.timers ==> EntryOk(t, e)) && (forall id :: id in t.active ==> ActiveOk(t, id))
  {
    var t, k := Begin(s, now, stale), Expired(s.timers, now);
    assert s.timers == t.batch + t.timers;
    forall e | e in t.timers
      ensures EntryOk(t, e)
    {
      assert EntryOk(s, e);
      DetachedExact(s, k, IdOf(s, e.addr));
    }
    forall id | id in t.active
      ensures ActiveOk(t, id)
    {
      assert ActiveOk(s, id);
      DetachedExact(s, k, id);
    }
  }

  lemma BeginKeepsOwners(s: State, now: int, stale: bool)
    requires Core(s) && s.batch == []
    ensures var t := Begin(s, now, stale);
      (forall i :: 0 <= i < |t.batch| ==> BatchOk(t, t.batch[i])) && (forall a :: a in t.heap ==> HeapOk(t, a))
  {
    var t, k := Begin(s, now, stale), Expired(s.timers, now);
    ExpiredExact(s, now);
    forall i | 0 <= i < |t.batch|
      ensures BatchOk(t, t.batch[i])
    {
      assert EntryOk(s, s.timers[i]) && HeapOk(s, s.timers[i].addr);
      DetachedExact(s, k, IdOf(s, s.timers[i].addr));
    }
    forall a | a in t.heap
      ensures HeapOk(t, a)
    {
      assert HeapOk(s, a);
      if IdOf(s, a) in s.active && IdOf(s, a) !in t.active {
        DetachedExact(s, k, IdOf(s, a));
        var i :| 0 <= i < k && s.timers[..k][i] == Entry(s.heap[a].expiration, a);
        assert t.batch[i].addr == a;
      }
    }
  }

  lemma BeginKeepsInv(s: State, now: int, stale: bool)
    requires Inv(s) && !s.calling && s.clock <= now
    ensures Inv(Begin(s, now, stale))
  {
    ExpiredExact(s, now);
    BeginKeepsIndexes(s, now, stale);
    BeginKeepsOwners(s, now, stale);
  }

  function ResetAll(s: State): (t: State)
    requires Core(s)
    ensures Core(t) && t.batch == []
    decreases |s.batch|
  {
    if s.batch == [] then s
    else
      ResetOneKeepsCore(s);
      ResetAll(ResetOne(s))
  }

  function ArmedForFirst(s: State, now: int): State {
    if s.timers != [] && s.timers[0].when > 0 then ResetTimer(s, s.timers[0].when, now) else s.(clock := now)
  }

  function End(s: State, now: int): State
    requires Core(s)
  {
    ArmedForFirst(ResetAll(s.(calling := false)), now)
  }

  lemma RemoveFirstKeepsCore(s: State)
    requires Core(s) && s.batch != []
    ensures s.batch[0].addr in s.heap
    ensures Core(s.(batch := s.batch[1..], heap := s.heap - {s.batch[0].addr}))
  {
    var a := s.batch[0].addr;
    assert BatchOk(s, s.batch[0]);
    forall e | e in s.batch[1..] || e in s.timers
      ensures e.addr != a
    {
      assert e in s.timers ==> EntryOk(s, e);
    }
    FewerKeepsCore(s, s.(batch := s.batch[1..], heap := s.heap - {a}), {a});
  }

  lemma ResetOneKeepsCore(s: State)
    requires Core(s) && s.batch != []
    ensures s.batch[0].addr in s.heap && Core(ResetOne(s))
  {
    RemoveFirstKeepsCore(s);
    if Returns(s, s.batch[0].addr) {
      RestartedInsertable(s);
      InsertKeepsCore(Restarted(s), s.batch[0].addr);
    }
  }

  lemma RestartedInsertable(s: State)
    requires Core(s) && s.batch != [] && s.batch[0].addr in s.heap
    ensures Insertable(Restarted(s), s.batch[0].addr)
  {
    var a, t := s.batch[0].addr, Restarted(s);
    RemoveFirstKeepsCore(s);
    assert HeapOk(s, a);
    assert t.(heap := t.heap - {a}) == s.(batch := s.batch[1..], heap := s.heap - {a});
  }

  /** Only timers later than the pass come back, so an earliest one that is not positive was armed for already. */
  lemma {:induction false} ResetAllKeepsCore(s: State)
    requires Core(s)
    ensures var t := ResetAll(s);
      t.calling == s.calling && t.wait == s.wait && t.clock == s.clock && t.passTime == s.passTime &&
      (t.timers != [] && t.timers[0].when < s.passTime ==> s.timers != [] && t.timers[0] == s.timers[0])
    decreases |s.batch|
  {
    if s.batch != [] {
      ResetOneKeepsCore(s);
      var a := s.batch[0].addr;
      if Returns(s, a) {
        EmplaceExact(s.timers, Entry(s.passTime + s.heap[a].delta, a));
      }
      ResetAllKeepsCore(ResetOne(s));
    }
  }

  lemma StopCalling(s: State)
    requires Inv(s)
    ensures Core(s.(calling := false))
  {
    SameTimersCore(s, s.(calling := false));
  }

  lemma EndKeepsInv(s: State, now: int)
    requires Inv(s) && s.calling && s.clock <= now
    ensures Inv(End(s, now))
  {
    var u := s.(calling := false);
    SameTimersCore(s, u);
    ResetAllKeepsCore(u);
    var t := ResetAll(u);
    if t.timers != [] {
      WakeInTime(t.timers[0].when, now);
    }
    SameTimersCore(t, End(s, now));
  }

  // ------------------------------------------------------------------ both indexes hold the same timers

  /** The i-th timer of a batch is alive, and its id is in the index of ids until its own turn comes. */
  ghost predicate Detachable(heap: Heap, active: set<Id>, batch: seq<Entry>, i: nat)
    requires i < |batch|
  {
    batch[i].addr in heap &&
    var id := Id(batch[i].addr, heap[batch[i].addr].sequence);
    id in active && id !in IdsOf(heap, batch[..i]) && IdsOf(heap, batch[..i + 1]) == IdsOf(heap, batch[..i]) + {id}
  }

  lemma {:induction false} IdsCounted(heap: Heap, active: set<Id>, batch: seq<Entry>, k: nat)
    requires k <= |batch| && forall i :: 0 <= i < k ==> Detachable(heap, active, batch, i)
    ensures |IdsOf(heap, batch[..k])| == k
  {
    if k == 0 {
      assert IdsOf(heap, batch[..0]) == {};
    } else {
      IdsCounted(heap, active, batch, k - 1);
      assert Detachable(heap, active, batch, k - 1);
    }
  }

  lemma AllDetachable(s: State, k: nat)
    requires Core(s) && k < |s.timers|
    ensures Detachable(s.heap, s.active, s.timers, k)
  {
    var e, p, q := s.timers[k], s.timers[..k], s.timers[..k + 1];
    assert EntryOk(s, e);
    var id := IdOf(s, e.addr);
    DetachedExact(s, k, id);
    assert s.timers[k..][0] == e;
    forall x | x in IdsOf(s.heap, p)
      ensures x in IdsOf(s.heap, q)
    {
      var i :| 0 <= i < |p| && p[i].addr in s.heap && IdOf(s, p[i].addr) == x;
      assert q[i] == p[i];
    }
    forall x | x in IdsOf(s.heap, q) && x != id
      ensures x in IdsOf(s.heap, p)
    {
      var i :| 0 <= i < |q| && q[i].addr in s.heap && IdOf(s, q[i].addr) == x;
      assert p[i] == q[i];
    }
    assert q[k] == e;
  }

  /** The two indexes have the same size, as the source asserts again and again. */
  lemma SizesAgree(s: State)
    requires Core(s)
    ensures |s.timers| == |s.active|
  {
    forall k | 0 <= k < |s.timers|
      ensures Detachable(s.heap, s.active, s.timers, k)
    {
      AllDetachable(s, k);
    }
    IdsCounted(s.heap, s.active, s.timers, |s.timers|);
    assert s.timers[..|s.timers|] == s.timers;
    forall id | id in s.active
      ensures id in IdsOf(s.heap, s.timers)
    {
      assert ActiveOk(s, id);
      DetachedExact(s, |s.timers|, id);
    }
    forall id | id in IdsOf(s.heap, s.timers)
      ensures id in s.active
    {
      var i :| 0 <= i < |s.timers| && s.timers[i].addr in s.heap && IdOf(s, s.timers[i].addr) == id;
      assert EntryOk(s, s.timers[i]);
    }
    assert s.active == IdsOf(s.heap, s.timers);
  }

  // ------------------------------------------------------------------ what a pass does to its timers

  lemma {:induction false} ResetAllOthers(s: State, a: Addr)
    requires Core(s) && !InBatch(s, a)
    ensures var t := ResetAll(s);
      (a in t.heap <==> a in s.heap) &&
      (a in s.heap ==> t.heap[a] == s.heap[a] && (IdOf(s, a) in t.active <==> IdOf(s, a) in s.active))
    decreases |s.batch|
  {
    hide Core;
    if s.batch != [] {
      assert s.batch[0].addr != a;
      ResetOneKeepsCore(s);
      var t := ResetOne(s);
      forall i | 0 <= i < |t.batch|
        ensures t.batch[i].addr != a
      {
        assert t.batch[i] == s.batch[i + 1];
      }
      ResetAllOthers(t, a);
    }
  }

  /** Between `s` and `t` the timer at `a` has been restarted and is pending, or has been deleted. */
  ghost predicate Decided(s: State, t: State, a: Addr)
    requires a in s.heap
  {
    if Returns(s, a) then
      a in t.heap && t.heap[a] == s.heap[a].(expiration := s.passTime + s.heap[a].delta) && IdOf(s, a) in t.active
    else a !in t.heap
  }

  lemma FirstFate(s: State)
    requires Core(s) && s.batch != []
    ensures s.batch[0].addr in s.heap && Decided(s, ResetAll(s), s.batch[0].addr)
  {
    ResetOneKeepsCore(s);
    var t := ResetOne(s);
    forall j | 0 <= j < |t.batch|
      ensures t.batch[j].addr != s.batch[0].addr
    {
      assert t.batch[j] == s.batch[j + 1];
    }
    ResetAllOthers(t, s.batch[0].addr);
  }

  lemma LaterUntouched(s: State, i: nat)
    requires Core(s) && 0 < i < |s.batch|
    ensures s.batch[0].addr in s.heap && Core(ResetOne(s)) && |ResetOne(s).batch| == |s.batch| - 1
    ensures var a, t := s.batch[i].addr, ResetOne(s);
      t.batch[i - 1].addr == a && a in s.heap && a in t.heap && t.heap[a] == s.heap[a] &&
        t.passTime == s.passTime && t.canceling == s.canceling
  {
    ResetOneKeepsCore(s);
    assert BatchOk(s, s.batch[i]);
    assert s.batch[0].addr != s.batch[i].addr;
  }

  lemma SameDecision(s: State, s': State, t: State, a: Addr)
    requires a in s.heap && a in s'.heap && s'.heap[a] == s.heap[a] && s'.passTime == s.passTime &&
      s'.canceling == s.canceling
    requires Decided(s', t, a)
    ensures Decided(s, t, a)
  {
  }

  lemma {:induction false} BatchFate(s: State, i: nat)
    requires Core(s) && i < |s.batch|
    ensures s.batch[i].addr in s.heap && Decided(s, ResetAll(s), s.batch[i].addr)
    decreases |s.batch|
  {
    hide Core;
    if i == 0 {
      FirstFate(s);
    } else {
      LaterUntouched(s, i);
      BatchFate(ResetOne(s), i - 1);
      SameDecision(s, ResetOne(s), ResetAll(s), s.batch[i].addr);
    }
  }

  /** The timer at `a` is alive with these fields, and in both indexes. */
  ghost predicate PendingAs(s: State, a: Addr, timer: Timer) {
    a in s.heap && s.heap[a] == timer && IdOf(s, a) in s.active && Entry(timer.expiration, a) in s.timers
  }

  /**
   The end of a pass decides every timer of its batch: a repeating one that no callback has cancelled
   is pending again, one interval after the pass; any other one is deleted.
   */
  lemma EndDecides(s: State, now: int, i: nat)
    requires Inv(s) && s.calling && i < |s.batch|
    ensures var a, t := s.batch[i].addr, End(s, now);
      a in s.heap &&
      if Returns(s, a) then PendingAs(t, a, s.heap[a].(expiration := s.passTime + s.heap[a].delta)) else a !in t.heap
  {
    hide Inv, Core;
    var u := s.(calling := false);
    StopCalling(s);
    BatchFate(u, i);
    if Returns(s, s.batch[i].addr) {
      PendingHasEntry(ResetAll(u), s.batch[i].addr);
    }
  }

  lemma PendingHasEntry(s: State, a: Addr)
    requires Core(s) && a in s.heap && IdOf(s, a) in s.active
    ensures Entry(s.heap[a].expiration, a) in s.timers
  {
  }

  // ------------------------------------------------------------------ runs

  datatype Step =
    | Creating(a: Addr, expiration: int, repeat: bool, delta: nat)
    | Adding(a: Addr, now: int)
    | Cancelling(id: Id)
    | Beginning(now: int, stale: bool)
    | Calling
    | Ending(now: int)

  /** `stale` marks a handler whose wait was replaced too late to stop it. */
  ghost predicate Enabled(s: State, step: Step) {
    match step
    case Creating(a, _, _, _) => a !in s.heap && a < UINTPTR_MAX
    case Adding(a, now) => a in s.posted && s.clock <= now
    case Cancelling(_) => true
    case Beginning(now, stale) => !s.calling && s.clock <= now && (stale || (s.wait.Armed? && s.wait.wake <= now))
    case Calling => s.calling && s.ran < |s.batch|
    case Ending(now) => s.calling && s.ran == |s.batch| && s.clock <= now
  }

  ghost function Next(s: State, step: Step): (t: State)
    requires Inv(s) && Enabled(s, step)
    ensures Inv(t)
  {
    match step
    case Creating(a, expiration, repeat, delta) =>
      CreateKeepsInv(s, a, expiration, repeat, delta);
      Create(s, a, expiration, repeat, delta)
    case Adding(a, now) => AddKeepsInv(s, a, now); AddInLoop(s, a, now)
    case Cancelling(id) => CancelKeepsInv(s, id); Cancel(s, id)
    case Beginning(now, stale) => BeginKeepsInv(s, now, stale); Begin(s, now, stale)
    case Calling => CallKeepsInv(s); s.(ran := s.ran + 1)
    case Ending(now) => EndKeepsInv(s, now); End(s, now)
  }

  lemma CallKeepsInv(s: State)
    requires Inv(s) && s.calling && s.ran < |s.batch|
    ensures Inv(s.(ran := s.ran + 1))
  {
  }

  ghost predicate Legal(s: State, steps: seq<Step>)
    requires Inv(s)
    decreases |steps|
  {
    steps == [] || (Enabled(s, steps[0]) && Legal(Next(s, steps[0]), steps[1..]))
  }

  ghost function Run(s: State, steps: seq<Step>): (t: State)
    requires Inv(s) && Legal(s, steps)
    ensures Inv(t)
    decreases |steps|
  {
    if steps == [] then s else Run(Next(s, steps[0]), steps[1..])
  }

  /** The state of a new queue satisfies the invariant, and so does every state that a run reaches. */
  lemma InitOk(clock: int)
    requires clock > 0
    ensures Inv(State(map[], 0, {}, [], {}, {}, false, [], 0, 0, Unarmed, clock))
  {
  }

  /** Outside the handler a pending timer never waits longer than until the armed wait, which is in time. */
  lemma WakeUpNeverMissed(s: State, e: Entry)
    requires Inv(s) && !s.calling && e in s.timers
    ensures s.wait.Armed? && (s.wait.wake <= s.wait.at <= s.clock || s.wait.wake <= e.when)
    ensures forall now :: e.when <= now && s.clock <= now ==> e in Begin(s, now, false).batch
  {
  }

  /** A callback runs a timer that is alive, after its expiration. */
  lemma CallbackDue(s: State)
    requires Inv(s) && Enabled(s, Calling)
    ensures var e := s.batch[s.ran]; e.addr in s.heap && s.heap[e.addr].expiration == e.when <= s.passTime <= s.clock
  {
  }

  /** The i-th timer of a running batch is the same in both states, and so is the pass. */
  ghost predicate SameInBatch(s: State, t: State, i: nat)
    requires i < |s.batch|
  {
    var a := s.batch[i].addr;
    t.calling && t.batch == s.batch && t.passTime == s.passTime && a in s.heap && a in t.heap && t.heap[a] == s.heap[a]
  }

  /** Between the detachment of a batch and its reset nothing that callbacks or other threads do disturbs it. */
  lemma BatchUndisturbed(s: State, step: Step, i: nat)
    requires Inv(s) && s.calling && Enabled(s, step) && !step.Ending? && i < |s.batch|
    ensures SameInBatch(s, Next(s, step), i)
    ensures var a := s.batch[i].addr; Returns(Next(s, step), a) <==> Returns(s, a) && step != Cancelling(IdOf(s, a))
  {
    assert BatchOk(s, s.batch[i]);
  }

  lemma FirstOrLater(steps: seq<Step>, step: Step)
    requires steps != []
    ensures step in steps <==> step == steps[0] || step in steps[1..]
  {
    assert steps == [steps[0]] + steps[1..];
  }

  lemma {:induction false} BatchUndisturbedByRun(s: State, steps: seq<Step>, i: nat)
    requires Inv(s) && s.calling && Legal(s, steps) && i < |s.batch|
    requires forall k :: 0 <= k < |steps| ==> !steps[k].Ending?
    ensures SameInBatch(s, Run(s, steps), i)
    ensures var a := s.batch[i].addr; Returns(Run(s, steps), a) <==> Returns(s, a) && Cancelling(IdOf(s, a)) !in steps
    decreases |steps|
  {
    if steps == [] {
      assert BatchOk(s, s.batch[i]);
    } else {
      BatchUndisturbed(s, steps[0], i);
      BatchUndisturbedByRun(Next(s, steps[0]), steps[1..], i);
      FirstOrLater(steps, Cancelling(IdOf(s, s.batch[i].addr)));
    }
  }

  /** A pass begins with no cancellation noted and takes its time and its timers as they are. */
  lemma BatchBegins(s: State, now: int, stale: bool, i: nat)
    requires Inv(s) && Enabled(s, Beginning(now, stale)) && i < |Next(s, Beginning(now, stale)).batch|
    ensures var b := Next(s, Beginning(now, stale));
      b.calling && b.canceling == {} && b.ran == 0 && b.passTime == now && b.heap == s.heap &&
      Pending(s, b.batch[i].addr)
  {
    assert s.timers[i] in s.timers && EntryOk(s, s.timers[i]);
  }

  ghost predicate Pending(s: State, a: Addr) {
    a in s.heap && IdOf(s, a) in s.active
  }

  lemma NextIsEnd(s: State, end: int)
    requires Inv(s) && Enabled(s, Ending(end))
    ensures s.calling && Next(s, Ending(end)) == End(s, end)
  {
  }

  /**
   Whatever callbacks and other threads do from the beginning `b` of a pass to its end: a timer of its
   batch is pending again, one interval after the pass, exactly if it repeats and was not cancelled on
   the way; otherwise it is deleted.
   */
  lemma PassExact(b: State, steps: seq<Step>, end: int, i: nat)
    requires Inv(b) && b.calling && b.canceling == {} && i < |b.batch| && Legal(b, steps)
    requires forall k :: 0 <= k < |steps| ==> !steps[k].Ending?
    ensures b.batch[i].addr in b.heap
    ensures var a, e := b.batch[i].addr, Run(b, steps);
      Enabled(e, Ending(end)) ==>
        if b.heap[a].repeat && Cancelling(IdOf(b, a)) !in steps then
          PendingAs(Next(e, Ending(end)), a, b.heap[a].(expiration := b.passTime + b.heap[a].delta))
        else a !in Next(e, Ending(end)).heap
  {
    hide Inv, Core, Next, Enabled;
    BatchUndisturbedByRun(b, steps, i);
    if Enabled(Run(b, steps), Ending(end)) {
      NextIsEnd(Run(b, steps), end);
      EndDecides(Run(b, steps), end, i);
    }
  }

  // ------------------------------------------------------------------ the life of one timer

  /** What has become of the address: where its timer is, and what is known of it. */
  datatype Life =
    | Absent
    | Posted(timer: Timer)
    | Waiting(timer: Timer)                                         // pending in both indexes
    | Running(timer: Timer, passTime: int, cancelled: bool)        // in the batch of a pass

  ghost function LifeOf(s: State, a: Addr): Life {
    if a !in s.heap then Absent
    else if a in s.posted then Posted(s.heap[a])
    else if IdOf(s, a) in s.active then Waiting(s.heap[a])
    else Running(s.heap[a], s.passTime, IdOf(s, a) in s.canceling)
  }

  /** The life of a timer as its own steps make it; `number` is the last number given out so far. */
  function LifeAfterStep(l: Life, a: Addr, step: Step, number: nat): Life {
    match step
    case Creating(b, expiration, repeat, delta) =>
      if b == a then Posted(Timer(expiration, repeat, delta, number + 1)) else l
    case Adding(b, _) => if b == a && l.Posted? then Waiting(l.timer) else l
    case Cancelling(id) => if id.addr == a then Cancelled(l, id.sequence) else l
    case Beginning(now, _) => if l.Waiting? && l.timer.expiration <= now then Running(l.timer, now, false) else l
    case Calling => l
    case Ending(_) => if l.Running? then PassOver(l) else l
  }

  function Cancelled(l: Life, number: int): Life {
    match l
    case Waiting(timer) => if timer.sequence == number then Absent else l
    case Running(timer, passTime, _) => if timer.sequence == number then Running(timer, passTime, true) else l
    case _ => l
  }

  function PassOver(l: Life): Life
    requires l.Running?
  {
    if l.timer.repeat && !l.cancelled then Waiting(l.timer.(expiration := l.passTime + l.timer.delta)) else Absent
  }

  lemma OwnerInBatch(s: State, a: Addr) returns (i: nat)
    requires Core(s) && LifeOf(s, a).Running?
    ensures i < |s.batch| && s.batch[i].addr == a
  {
    assert HeapOk(s, a);
    i :| 0 <= i < |s.batch| && s.batch[i].addr == a;
  }

  lemma BeginningExact(s: State, now: int, stale: bool, a: Addr)
    requires Inv(s) && Enabled(s, Beginning(now, stale))
    ensures LifeOf(Begin(s, now, stale), a) == LifeAfterStep(LifeOf(s, a), a, Beginning(now, stale), s.numCreated)
  {
    if a in s.heap {
      assert HeapOk(s, a);
      if IdOf(s, a) in s.active {
        assert ActiveOk(s, IdOf(s, a));
        ExpiredExact(s, now);
        DetachedExact(s, Expired(s.timers, now), IdOf(s, a));
      }
    }
  }

  lemma EndingInBatch(s: State, end: int, i: nat)
    requires Inv(s) && Enabled(s, Ending(end)) && i < |s.batch|
    ensures var a := s.batch[i].addr;
      LifeOf(End(s, end), a) == LifeAfterStep(LifeOf(s, a), a, Ending(end), s.numCreated)
  {
    assert BatchOk(s, s.batch[i]);
    EndDecides(s, end, i);
    EndKeepsPosted(s, end);
  }

  lemma EndingElsewhere(s: State, end: int, a: Addr)
    requires Inv(s) && Enabled(s, Ending(end)) && !InBatch(s, a)
    ensures LifeOf(End(s, end), a) == LifeAfterStep(LifeOf(s, a), a, Ending(end), s.numCreated)
  {
    SameTimersCore(s, s.(calling := false));
    EndKeepsPosted(s, end);
    if a in s.heap {
      assert HeapOk(s, a);
    }
    ResetAllOthers(s.(calling := false), a);
  }

  lemma EndKeepsPosted(s: State, end: int)
    requires Inv(s) && s.calling
    ensures End(s, end).posted == s.posted && End(s, end).numCreated == s.numCreated
  {
    SameTimersCore(s, s.(calling := false));
    ResetAllKeepsPosted(s.(calling := false));
    ResetAllCreatesNone(s.(calling := false));
  }

  lemma EndingExact(s: State, end: int, a: Addr)
    requires Inv(s) && Enabled(s, Ending(end))
    ensures LifeOf(End(s, end), a) == LifeAfterStep(LifeOf(s, a), a, Ending(end), s.numCreated)
  {
    hide Inv, End, LifeOf, LifeAfterStep, Enabled;
    if InBatch(s, a) {
      var i :| 0 <= i < |s.batch| && s.batch[i].addr == a;
      EndingInBatch(s, end, i);
    } else {
      EndingElsewhere(s, end, a);
    }
  }

  lemma {:induction false} ResetAllKeepsPosted(s: State)
    requires Core(s)
    ensures ResetAll(s).posted == s.posted
    decreases |s.batch|
  {
    hide Core;
    if s.batch != [] {
      ResetOneKeepsCore(s);
      ResetAllKeepsPosted(ResetOne(s));
    }
  }

  lemma CreatingExact(s: State, b: Addr, expiration: int, repeat: bool, delta: nat, a: Addr)
    requires b !in s.heap
    ensures LifeOf(Create(s, b, expiration, repeat, delta), a) ==
      LifeAfterStep(LifeOf(s, a), a, Creating(b, expiration, repeat, delta), s.numCreated)
  {
  }

  lemma AddingExact(s: State, b: Addr, now: int, a: Addr)
    requires b in s.posted && b in s.heap
    ensures LifeOf(AddInLoop(s, b, now), a) == LifeAfterStep(LifeOf(s, a), a, Adding(b, now), s.numCreated)
  {
  }

  lemma CancellingExact(s: State, id: Id, a: Addr)
    requires Inv(s)
    ensures id in s.active ==> id.addr in s.heap
    ensures LifeOf(Cancel(s, id), a) == LifeAfterStep(LifeOf(s, a), a, Cancelling(id), s.numCreated)
  {
    if a in s.heap {
      assert HeapOk(s, a);
    }
    assert id in s.active ==> ActiveOk(s, id);
  }

  /**
   Every timer lives its own life: what a step does to it is told by the step alone, whatever other
   timers there are, were or come at the same address.
   */
  lemma LifeExact(s: State, step: Step, a: Addr)
    requires Inv(s) && Enabled(s, step)
    ensures LifeOf(Next(s, step), a) == LifeAfterStep(LifeOf(s, a), a, step, s.numCreated)
    ensures Next(s, step).numCreated == s.numCreated + if step.Creating? then 1 else 0
  {
    assert step.Adding? ==> step.a in s.heap;
    hide Inv, LifeOf, LifeAfterStep;
    match step
    case Creating(b, expiration, repeat, delta) => CreatingExact(s, b, expiration, repeat, delta, a);
    case Adding(b, now) => AddingExact(s, b, now, a);
    case Cancelling(id) => CancellingExact(s, id, a);
    case Beginning(now, stale) => BeginningExact(s, now, stale, a);
    case Calling => CallingExact(s, a);
    case Ending(end) =>
      EndingExact(s, end, a);
      EndKeepsPosted(s, end);
  }

  lemma CallingExact(s: State, a: Addr)
    ensures LifeOf(s.(ran := s.ran + 1), a) == LifeAfterStep(LifeOf(s, a), a, Calling, s.numCreated)
  {
  }

  function LifeAfter(l: Life, a: Addr, steps: seq<Step>, number: nat): Life
    decreases |steps|
  {
    if steps == [] then l
    else
      LifeAfter(LifeAfterStep(l, a, steps[0], number), a, steps[1..], number + if steps[0].Creating? then 1 else 0)
  }

  /** Over any run. */
  lemma {:induction false} LifeOverRun(s: State, steps: seq<Step>, a: Addr)
    requires Inv(s) && Legal(s, steps)
    ensures LifeOf(Run(s, steps), a) == LifeAfter(LifeOf(s, a), a, steps, s.numCreated)
    decreases |steps|
  {
    hide Inv, Core, WakeOk, Next, LifeOf, LifeAfterStep, Enabled;
    if steps != [] {
      LifeExact(s, steps[0], a);
      LifeOverRun(Next(s, steps[0]), steps[1..], a);
    }
  }

  /** From the call that adds a timer on: what it asked for is what it gets, as long as its address is its own. */
  lemma AddedTimerLives(s: State, a: Addr, expiration: int, repeat: bool, delta: nat, steps: seq<Step>)
    requires Inv(s) && Enabled(s, Creating(a, expiration, repeat, delta))
    requires Legal(Next(s, Creating(a, expiration, repeat, delta)), steps)
    ensures var born, number := Next(s, Creating(a, expiration, repeat, delta)), s.numCreated + 1;
      LifeOf(Run(born, steps), a) == LifeAfter(Posted(Timer(expiration, repeat, delta, number)), a, steps, number)
  {
    hide Inv, Core, Next, LifeOf, Enabled;
    LifeExact(s, Creating(a, expiration, repeat, delta), a);
    LifeOverRun(Next(s, Creating(a, expiration, repeat, delta)), steps, a);
  }

  // ------------------------------------------------------------------ the callbacks of a pass

  /** The number of the timer that a step calls back. */
  function CalledBy(s: State, step: Step): seq<int> {
    if step.Calling? && s.ran < |s.batch| && s.batch[s.ran].addr in s.heap
    then [s.heap[s.batch[s.ran].addr].sequence] else []
  }

  /** The timers called back in a run, in order. */
  ghost function Called(s: State, steps: seq<Step>): seq<int>
    requires Inv(s) && Legal(s, steps)
    decreases |steps|
  {
    if steps == [] then [] else CalledBy(s, steps[0]) + Called(Next(s, steps[0]), steps[1..])
  }

  function NumbersOf(heap: Heap, batch: seq<Entry>): (numbers: seq<int>)
    requires forall i :: 0 <= i < |batch| ==> batch[i].addr in heap
    ensures |numbers| == |batch|
    ensures forall i :: 0 <= i < |batch| ==> numbers[i] == heap[batch[i].addr].sequence
  {
    if batch == [] then [] else NumbersOf(heap, batch[..|batch| - 1]) + [heap[batch[|batch| - 1].addr].sequence]
  }

  /** The timers of a batch, by number, as they are in this state. */
  ghost predicate InPass(s: State, batch: seq<Entry>, numbers: seq<int>) {
    && s.calling && s.batch == batch && s.ran <= |batch| == |numbers|
    && forall i :: 0 <= i < |batch| ==> batch[i].addr in s.heap && s.heap[batch[i].addr].sequence == numbers[i]
  }

  /** A step during a pass leaves the batch as it is, and calls the next of its timers back or none. */
  lemma StepInPass(s: State, step: Step, numbers: seq<int>)
    requires Inv(s) && InPass(s, s.batch, numbers) && Enabled(s, step) && !step.Ending?
    ensures var t := Next(s, step);
      InPass(t, s.batch, numbers) && s.ran <= t.ran && CalledBy(s, step) == numbers[s.ran..t.ran]
  {
    forall i | 0 <= i < |s.batch|
      ensures s.batch[i].addr in Next(s, step).heap
      ensures Next(s, step).heap[s.batch[i].addr] == s.heap[s.batch[i].addr]
    {
      BatchUndisturbed(s, step, i);
    }
  }

  lemma SlicesJoin(numbers: seq<int>, i: nat, j: nat, k: nat)
    requires i <= j <= k <= |numbers|
    ensures numbers[i..j] + numbers[j..k] == numbers[i..k]
  {
  }

  lemma {:induction false} RunInPass(s: State, steps: seq<Step>, numbers: seq<int>)
    requires Inv(s) && InPass(s, s.batch, numbers) && Legal(s, steps)
    requires forall k :: 0 <= k < |steps| ==> !steps[k].Ending?
    ensures var e := Run(s, steps);
      InPass(e, s.batch, numbers) && s.ran <= e.ran && Called(s, steps) == numbers[s.ran..e.ran]
    decreases |steps|
  {
    if steps != [] {
      var t := Next(s, steps[0]);
      StepInPass(s, steps[0], numbers);
      assert t.batch == s.batch && t.ran <= |numbers|;
      hide Inv, Next, CalledBy, InPass, Enabled;
      RunInPass(t, steps[1..], numbers);
      RanAtMost(Run(s, steps), s.batch, numbers);
      SlicesJoin(numbers, s.ran, t.ran, Run(s, steps).ran);
    }
  }

  lemma RanAtMost(s: State, batch: seq<Entry>, numbers: seq<int>)
    requires InPass(s, batch, numbers)
    ensures s.ran <= |numbers| && s.batch == batch
  {
  }

  lemma BatchInPass(s: State) returns (numbers: seq<int>)
    requires Inv(s) && s.calling
    ensures InPass(s, s.batch, numbers) && Distinct(numbers)
  {
    forall i | 0 <= i < |s.batch|
      ensures s.batch[i].addr in s.heap
    {
      assert BatchOk(s, s.batch[i]);
    }
    numbers := NumbersOf(s.heap, s.batch);
  }

  predicate Distinct(numbers: seq<int>) {
    forall i, j :: 0 <= i < j < |numbers| ==> numbers[i] != numbers[j]
  }

  /**
   A pass calls back every timer of its batch, each once, in order, whatever its callbacks and other
   threads do from its beginning `b` over the steps until its end is due.
   */
  lemma EachCalledOnce(b: State, steps: seq<Step>, end: int)
    requires Inv(b) && b.calling && b.ran == 0 && Legal(b, steps)
    requires forall k :: 0 <= k < |steps| ==> !steps[k].Ending?
    ensures Enabled(Run(b, steps), Ending(end)) ==>
      |Called(b, steps)| == |b.batch| && Distinct(Called(b, steps)) && InPass(b, b.batch, Called(b, steps))
  {
    var numbers := BatchInPass(b);
    RunInPass(b, steps, numbers);
    assert numbers[0..|numbers|] == numbers;
  }

  // ------------------------------------------------------------------ deletion and cancellation are final

  /** The timer with this number has existed and is deleted. */
  ghost predicate Gone(s: State, q: int) {
    q <= s.numCreated && forall a :: a in s.heap ==> s.heap[a].sequence != q
  }

  /** Or it is alive, but only in the running batch, from which it will not return. */
  ghost predicate Silenced(s: State, q: int) {
    q <= s.numCreated &&
    forall a :: a in s.heap && s.heap[a].sequence == q ==>
      a !in s.posted && IdOf(s, a) !in s.active && IdOf(s, a) in s.canceling
  }

  lemma GoneIsSilenced(s: State, q: int)
    requires Gone(s, q)
    ensures Silenced(s, q)
  {
  }

  lemma SilencedOutsideIsGone(s: State, q: int)
    requires Inv(s) && !s.calling && Silenced(s, q)
    ensures Gone(s, q)
  {
  }

  /** A cancel silences its timer, whatever else goes on, exactly if it is processed after the insertion. */
  lemma CancelSilences(s: State, id: Id)
    requires Inv(s) && id.sequence <= s.numCreated
    requires forall a :: a in s.heap && s.heap[a].sequence == id.sequence ==> a == id.addr
    ensures Silenced(Cancel(s, id), id.sequence) <==> id.addr !in s.posted || s.heap[id.addr].sequence != id.sequence
  {
  }

  /** An id, be it stale or made up, touches no timer with another number: not its state, nor its return. */
  lemma CancelTouchesOnlyItsOwn(s: State, id: Id, a: Addr)
    requires Inv(s) && a in s.heap && s.heap[a].sequence != id.sequence
    ensures var t := Cancel(s, id);
      a in t.heap && t.heap[a] == s.heap[a] && (IdOf(t, a) in t.active <==> IdOf(s, a) in s.active) &&
      t.batch == s.batch && t.posted == s.posted && (Returns(t, a) <==> Returns(s, a))
  {
  }

  /** A step that neither frees the number nor makes its timer pending leaves it silenced. */
  lemma StaysSilenced(s: State, t: State, q: int)
    requires Silenced(s, q) && s.numCreated <= t.numCreated && s.canceling <= t.canceling
    requires forall a :: a in t.heap && t.heap[a].sequence == q ==>
      a in s.heap && s.heap[a].sequence == q && (a in t.posted ==> a in s.posted)
    requires forall id :: id in t.active && id.sequence == q ==> id in s.active
    ensures Silenced(t, q) && (Gone(s, q) ==> Gone(t, q))
  {
  }

  lemma NextKeepsSilenced(s: State, step: Step, q: int)
    requires Inv(s) && Enabled(s, step) && Silenced(s, q)
    ensures Silenced(Next(s, step), q)
    ensures Gone(s, q) ==> Gone(Next(s, step), q)
  {
    match step
    case Creating(a, expiration, repeat, delta) => StaysSilenced(s, Create(s, a, expiration, repeat, delta), q);
    case Adding(a, now) => AddKeepsSilenced(s, a, now, q);
    case Cancelling(id) => CancelKeepsInv(s, id); StaysSilenced(s, Cancel(s, id), q);
    case Beginning(_, _) => SilencedOutsideIsGone(s, q);
    case Calling => StaysSilenced(s, s.(ran := s.ran + 1), q);
    case Ending(now) => EndKeepsSilenced(s, now, q);
  }

  lemma AddKeepsSilenced(s: State, a: Addr, now: int, q: int)
    requires Inv(s) && a in s.posted && Silenced(s, q)
    ensures Silenced(AddInLoop(s, a, now), q)
    ensures Gone(s, q) ==> Gone(AddInLoop(s, a, now), q)
  {
  }

  lemma EndKeepsSilenced(s: State, now: int, q: int)
    requires Inv(s) && s.calling && Silenced(s, q)
    ensures Gone(End(s, now), q)
  {
    var u := s.(calling := false);
    SameTimersCore(s, u);
    var t := ResetAll(u);
    ResetAllCreatesNone(u);
    forall a | a in t.heap
      ensures t.heap[a].sequence != q
    {
      if s.heap[a].sequence == q {
        assert HeapOk(s, a);
        var i :| 0 <= i < |u.batch| && u.batch[i].addr == a;
        BatchFate(u, i);
        assert false;
      }
    }
  }

  lemma {:induction false} ResetAllCreatesNone(s: State)
    requires Core(s)
    ensures var t := ResetAll(s);
      t.numCreated == s.numCreated &&
      forall a :: a in t.heap ==>
        a in s.heap && t.heap[a].sequence == s.heap[a].sequence && t.heap[a].repeat == s.heap[a].repeat
    decreases |s.batch|
  {
    hide Core;
    if s.batch != [] {
      ResetOneKeepsCore(s);
      ResetAllCreatesNone(ResetOne(s));
    }
  }

  /** The batch holds the timer with this number. */
  ghost predicate TakenUp(s: State, q: int) {
    exists i :: 0 <= i < |s.batch| && s.batch[i].addr in s.heap && s.heap[s.batch[i].addr].sequence == q
  }

  /** How many of the passes that begin in the run take up the timer with this number. */
  ghost function Passes(s: State, steps: seq<Step>, q: int): nat
    requires Inv(s) && Legal(s, steps)
    decreases |steps|
  {
    if steps == [] then 0
    else
      var t := Next(s, steps[0]);
      (if steps[0].Beginning? && TakenUp(t, q) then 1 else 0) + Passes(t, steps[1..], q)
  }

  /**
   After a cancel, or after its deletion, a timer is taken up by no later pass, whatever is created
   (at its address too), added, cancelled and expired; what is deleted stays deleted.
   */
  lemma {:induction false} SilencedForever(s: State, steps: seq<Step>, q: int)
    requires Inv(s) && Legal(s, steps) && Silenced(s, q)
    ensures Passes(s, steps, q) == 0 && Silenced(Run(s, steps), q)
    ensures Gone(s, q) ==> Gone(Run(s, steps), q)
    decreases |steps|
  {
    if steps != [] {
      NextKeepsSilenced(s, steps[0], q);
      if steps[0].Beginning? {
        SilencedOutsideIsGone(s, q);
      }
      SilencedForever(Next(s, steps[0]), steps[1..], q);
    }
  }

  // ------------------------------------------------------------------ a one-shot timer is taken up once

  ghost predicate OneShot(s: State, q: int) {
    q <= s.numCreated && forall a :: a in s.heap && s.heap[a].sequence == q ==> !s.heap[a].repeat
  }

  /** A one-shot that a pass has taken up: it is in the batch still, or deleted. */
  ghost predicate Spent(s: State, q: int) {
    q <= s.numCreated && forall a :: a in s.heap && s.heap[a].sequence == q ==> !s.heap[a].repeat && InBatch(s, a)
  }

  lemma NextKeepsOneShot(s: State, step: Step, q: int)
    requires Inv(s) && Enabled(s, step) && OneShot(s, q)
    ensures OneShot(Next(s, step), q)
  {
    if step.Cancelling? {
      CancelKeepsInv(s, step.id);
    } else if step.Ending? {
      SameTimersCore(s, s.(calling := false));
      ResetAllCreatesNone(s.(calling := false));
    }
  }

  /** Since numbers are unique. */
  lemma TakenUpIsSpent(s: State, q: int)
    requires Core(s) && OneShot(s, q) && TakenUp(s, q)
    ensures Spent(s, q)
  {
  }

  lemma NextKeepsSpent(s: State, step: Step, q: int)
    requires Inv(s) && Enabled(s, step) && Spent(s, q)
    ensures Spent(Next(s, step), q)
    ensures step.Beginning? ==> !TakenUp(Next(s, step), q)
  {
    match step
    case Creating(a, expiration, repeat, delta) => SpentStays(s, Create(s, a, expiration, repeat, delta), q);
    case Adding(a, now) => SpentStays(s, AddInLoop(s, a, now), q);
    case Cancelling(id) => CancelKeepsInv(s, id); SpentStays(s, Cancel(s, id), q);
    case Beginning(_, _) =>
    case Calling => SpentStays(s, s.(ran := s.ran + 1), q);
    case Ending(now) => EndDeletesSpent(s, now, q);
  }

  lemma SpentStays(s: State, t: State, q: int)
    requires Spent(s, q) && s.numCreated <= t.numCreated && t.batch == s.batch
    requires forall a :: a in t.heap && t.heap[a].sequence == q ==> a in s.heap && t.heap[a] == s.heap[a]
    ensures Spent(t, q)
  {
  }

  lemma EndDeletesSpent(s: State, now: int, q: int)
    requires Inv(s) && s.calling && Spent(s, q)
    ensures Gone(End(s, now), q)
  {
    var u := s.(calling := false);
    SameTimersCore(s, u);
    ResetAllCreatesNone(u);
    forall a | a in End(s, now).heap
      ensures End(s, now).heap[a].sequence != q
    {
      if s.heap[a].sequence == q {
        var i :| 0 <= i < |s.batch| && s.batch[i].addr == a;
        EndDecides(s, now, i);
        assert false;
      }
    }
  }

  lemma {:induction false} SpentForever(s: State, steps: seq<Step>, q: int)
    requires Inv(s) && Legal(s, steps) && Spent(s, q)
    ensures Passes(s, steps, q) == 0
    decreases |steps|
  {
    if steps != [] {
      NextKeepsSpent(s, steps[0], q);
      SpentForever(Next(s, steps[0]), steps[1..], q);
    }
  }

  lemma {:induction false} OneShotTakenOnce(s: State, steps: seq<Step>, q: int)
    requires Inv(s) && Legal(s, steps) && OneShot(s, q)
    ensures Passes(s, steps, q) <= 1
    decreases |steps|
  {
    if steps != [] {
      var t := Next(s, steps[0]);
      NextKeepsOneShot(s, steps[0], q);
      if steps[0].Beginning? && TakenUp(t, q) {
        TakenUpIsSpent(t, q);
        SpentForever(t, steps[1..], q);
      } else {
        OneShotTakenOnce(t, steps[1..], q);
      }
    }
  }

  lemma {:induction false} RunKeepsOneShot(s: State, steps: seq<Step>, q: int)
    requires Inv(s) && Legal(s, steps) && OneShot(s, q)
    ensures OneShot(Run(s, steps), q)
    decreases |steps|
  {
    if steps != [] {
      NextKeepsOneShot(s, steps[0], q);
      RunKeepsOneShot(Next(s, steps[0]), steps[1..], q);
    }
  }

  lemma BornOneShot(s: State, a: Addr, expiration: int, delta: nat)
    requires Inv(s) && Enabled(s, Creating(a, expiration, false, delta))
    ensures OneShot(Next(s, Creating(a, expiration, false, delta)), s.numCreated + 1)
  {
    forall b | b in s.heap
      ensures s.heap[b].sequence <= s.numCreated
    {
      assert HeapOk(s, b);
    }
  }

  /** From its creation on, over any run, at most one pass takes up a one-shot timer. */
  lemma OneShotRunsOnce(s: State, a: Addr, expiration: int, delta: nat, steps: seq<Step>)
    requires Inv(s) && Enabled(s, Creating(a, expiration, false, delta))
    requires Legal(Next(s, Creating(a, expiration, false, delta)), steps)
    ensures var born, q := Next(s, Creating(a, expiration, false, delta)), s.numCreated + 1;
      Passes(born, steps, q) <= 1 && OneShot(Run(born, steps), q)
  {
    BornOneShot(s, a, expiration, delta);
    OneShotTakenOnce(Next(s, Creating(a, expiration, false, delta)), steps, s.numCreated + 1);
    RunKeepsOneShot(Next(s, Creating(a, expiration, false, delta)), steps, s.numCreated + 1);
  }

  /** The end of that pass deletes it, for good. */
  lemma OneShotDies(s: State, end: int, q: int, steps: seq<Step>)
    requires Inv(s) && Enabled(s, Ending(end)) && OneShot(s, q) && TakenUp(s, q)
    requires Legal(Next(s, Ending(end)), steps)
    ensures Gone(Next(s, Ending(end)), q) && Gone(Run(Next(s, Ending(end)), steps), q)
  {
    TakenUpIsSpent(s, q);
    EndDeletesSpent(s, end, q);
    GoneIsSilenced(Next(s, Ending(end)), q);
    SilencedForever(Next(s, Ending(end)), steps, q);
  }

  // ------------------------------------------------------------------ and called back once

  /** The timer with this number is a one-shot that has been called back: it is in the batch, behind, or deleted. */
  ghost predicate Done(s: State, q: int) {
    q <= s.numCreated && forall a :: a in s.heap && s.heap[a].sequence == q ==> !s.heap[a].repeat && Behind(s, a)
  }

  predicate Behind(s: State, a: Addr) {
    exists i :: 0 <= i < s.ran && i < |s.batch| && s.batch[i].addr == a
  }

  lemma DoneIsSpent(s: State, q: int)
    requires Done(s, q)
    ensures Spent(s, q)
  {
  }

  lemma CallFinishes(s: State, q: int)
    requires Inv(s) && Enabled(s, Calling) && OneShot(s, q) && CalledBy(s, Calling) == [q]
    ensures Done(Next(s, Calling), q)
  {
    var t := Next(s, Calling);
    assert t.batch[s.ran].addr in t.heap && t.heap[t.batch[s.ran].addr].sequence == q && s.ran < t.ran;
  }

  lemma DoneStays(s: State, t: State, q: int)
    requires Done(s, q) && s.numCreated <= t.numCreated && t.batch == s.batch && s.ran <= t.ran
    requires forall a :: a in t.heap && t.heap[a].sequence == q ==> a in s.heap && t.heap[a] == s.heap[a]
    ensures Done(t, q)
  {
    forall a | a in t.heap && t.heap[a].sequence == q
      ensures Behind(t, a)
    {
      assert Behind(s, a);
    }
  }

  lemma NextKeepsDone(s: State, step: Step, q: int)
    requires Inv(s) && Enabled(s, step) && Done(s, q)
    ensures Done(Next(s, step), q)
  {
    match step
    case Creating(a, expiration, repeat, delta) => DoneStays(s, Create(s, a, expiration, repeat, delta), q);
    case Adding(a, now) => DoneStays(s, AddInLoop(s, a, now), q);
    case Cancelling(id) => CancelKeepsInv(s, id); DoneStays(s, Cancel(s, id), q);
    case Beginning(_, _) =>
    case Calling => DoneStays(s, s.(ran := s.ran + 1), q);
    case Ending(now) => DoneIsSpent(s, q); EndDeletesSpent(s, now, q);
  }

  lemma DoneNotCalled(s: State, step: Step, q: int)
    requires Inv(s) && Enabled(s, step) && Done(s, q)
    ensures CalledBy(s, step) != [q]
  {
    if s.ran < |s.batch| {
      assert !Behind(s, s.batch[s.ran].addr);
    }
  }

  lemma {:induction false} DoneForever(s: State, steps: seq<Step>, q: int)
    requires Inv(s) && Legal(s, steps) && Done(s, q)
    ensures multiset(Called(s, steps))[q] == 0
    decreases |steps|
  {
    if steps != [] {
      NextKeepsDone(s, steps[0], q);
      DoneNotCalled(s, steps[0], q);
      hide Inv, Next, CalledBy, Done, Enabled;
      DoneForever(Next(s, steps[0]), steps[1..], q);
      CalledShort(s, steps[0]);
    }
  }

  lemma CalledShort(s: State, step: Step)
    ensures |CalledBy(s, step)| <= 1
  {
  }

  lemma {:induction false} OneShotCalledAtMostOnce(s: State, steps: seq<Step>, q: int)
    requires Inv(s) && Legal(s, steps) && OneShot(s, q)
    ensures multiset(Called(s, steps))[q] <= 1
    decreases |steps|
  {
    if steps != [] {
      var t := Next(s, steps[0]);
      NextKeepsOneShot(s, steps[0], q);
      CalledShort(s, steps[0]);
      if CalledBy(s, steps[0]) == [q] {
        CallFinishes(s, q);
        DoneForever(t, steps[1..], q);
      } else {
        hide Inv, Next, CalledBy, OneShot, Enabled;
        OneShotCalledAtMostOnce(t, steps[1..], q);
      }
    }
  }

  /** From its creation on, over any run, a one-shot timer is called back once at most. */
  lemma OneShotCalledOnce(s: State, a: Addr, expiration: int, delta: nat, steps: seq<Step>)
    requires Inv(s) && Enabled(s, Creating(a, expiration, false, delta))
    requires Legal(Next(s, Creating(a, expiration, false, delta)), steps)
    ensures multiset(Called(Next(s, Creating(a, expiration, false, delta)), steps))[s.numCreated + 1] <= 1
  {
    BornOneShot(s, a, expiration, delta);
    OneShotCalledAtMostOnce(Next(s, Creating(a, expiration, false, delta)), steps, s.numCreated + 1);
  }

  /** And any timer that a pass takes up is called back once exactly, by its end. */
  lemma TakenUpIsCalled(b: State, steps: seq<Step>, end: int, q: int)
    requires Inv(b) && b.calling && b.ran == 0 && Legal(b, steps) && TakenUp(b, q)
    requires forall k :: 0 <= k < |steps| ==> !steps[k].Ending?
    requires Enabled(Run(b, steps), Ending(end))
    ensures multiset(Called(b, steps))[q] == 1
  {
    EachCalledOnce(b, steps, end);
    var called := Called(b, steps);
    var i :| 0 <= i < |b.batch| && b.batch[i].addr in b.heap && b.heap[b.batch[i].addr].sequence == q;
    assert called[i] == q;
    OnceIn(called, i);
  }

  lemma {:induction false} OnceIn(numbers: seq<int>, i: nat)
    requires Distinct(numbers) && i < |numbers|
    ensures multiset(numbers)[numbers[i]] == 1
  {
    assert numbers == numbers[..i] + [numbers[i]] + numbers[i + 1..];
    assert numbers[i] !in numbers[..i] && numbers[i] !in numbers[i + 1..];
  }
}
