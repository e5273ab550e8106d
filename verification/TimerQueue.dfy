/** The timer queue itself: every method is one step of the system. */
module TimerQueues {
  import opened TimerLists
  import opened TimerQueueSteps

  class TimerQueue {
    // the allocator and the clock
    var heap: Heap
    var numCreated: nat
    var clock: int
    // the loop's task queue, as far as it holds insertions
    var posted: set<Addr>
    // the queue's own fields; `wait` is the underlying timer
    var timers: seq<Entry>
    var activeTimers: set<Id>
    var cancelingTimers: set<Id>
    var callingExpiredTimers: bool
    var wait: Wait
    // the local state of a running handler: the batch, the callbacks begun, the time of the pass
    var batch: seq<Entry>
    var ran: nat
    var passTime: int

    ghost function Now(): State
      reads this
    {
      State(heap, numCreated, posted, timers, activeTimers, cancelingTimers, callingExpiredTimers, batch, ran,
        passTime, wait, clock)
    }

    constructor (clock: int)
      requires clock > 0
      ensures Inv(Now()) && timers == [] && wait.Unarmed? && this.clock == clock
    {
      heap, numCreated, posted := map[], 0, {};
      timers, activeTimers, cancelingTimers, callingExpiredTimers, wait := [], {}, {}, false, Unarmed;
      batch, ran, passTime := [], 0, 0;
      this.clock := clock;
    }

    /** Any thread; the allocator picks a free address. */
    method AddTimer(a: Addr, when: int, repeat: bool, delta: nat) returns (id: Id)
      requires Inv(Now()) && a !in heap && a < UINTPTR_MAX
      modifies this`heap, this`numCreated, this`posted
      ensures Now() == Next(old(Now()), Creating(a, when, repeat, delta)) && id == Id(a, numCreated)
    {
      numCreated := numCreated + 1;
      heap := heap[a := Timer(when, repeat, delta, numCreated)];
      posted := posted + {a};
      id := Id(a, numCreated);
    }

    method AddTimerInThisThread(a: Addr, now: int)
      requires Inv(Now()) && a in posted && clock <= now
      modifies this`posted, this`clock, this`timers, this`activeTimers, this`wait
      ensures Now() == Next(old(Now()), Adding(a, now))
    {
      PostedInsertable(Now(), a, now);
      InsertAsserts(Now().(posted := posted - {a}, clock := now), a);
      posted, clock := posted - {a}, now;
      var earliestChanged := InsertTimer(a);
      if earliestChanged {
        Rearm(heap[a].expiration, now);
      }
    }

    method CancelInThisThread(id: Id)
      requires Inv(Now())
      modifies this`timers, this`heap, this`activeTimers, this`cancelingTimers
      ensures Now() == Next(old(Now()), Cancelling(id))
    {
      CancelAsserts(Now(), id);
      assert |timers| == |activeTimers|;
      if id in activeTimers {
        DeleteTimer(id);
      } else if callingExpiredTimers {
        cancelingTimers := cancelingTimers + {id};
      }
    }

    method DeleteTimer(id: Id)
      requires |timers| == |activeTimers| && id in activeTimers && id.addr in heap
      requires Found(timers, Entry(heap[id.addr].expiration, id.addr))
      modifies this`timers, this`heap, this`activeTimers
      ensures Now() == Cancel(old(Now()), id)
    {
      EraseFound(timers, Entry(heap[id.addr].expiration, id.addr));
      hide Erase, Found;
      timers := Erase(timers, Entry(heap[id.addr].expiration, id.addr));
      heap := heap - {id.addr};
      activeTimers := activeTimers - {id};
      assert |timers| == |activeTimers|;
    }

    /** The requirements are what the source asserts. */
    method InsertTimer(a: Addr) returns (earliestChanged: bool)
      requires |timers| == |activeTimers| && a in heap
      requires !Found(timers, Entry(heap[a].expiration, a)) && Id(a, heap[a].sequence) !in activeTimers
      modifies this`timers, this`activeTimers
      ensures Now() == Insert(old(Now()), a) && earliestChanged == EarliestChanged(old(Now()), heap[a].expiration)
    {
      earliestChanged := false;
      var when := heap[a].expiration;
      if timers == [] || when < timers[0].when {
        earliestChanged := true;
      }
      timers := Emplace(timers, Entry(when, a));
      activeTimers := activeTimers + {Id(a, heap[a].sequence)};
      assert |timers| == |activeTimers|;
    }

    method Rearm(when: int, now: int)
      modifies this`wait, this`clock
      ensures Now() == ResetTimer(old(Now()), when, now)
    {
      var microSeconds := when - now;
      if microSeconds < 100 {
        microSeconds := 100;
      }
      var seconds := microSeconds / MICRO_PER_SECOND;
      wait := Armed(now, now + seconds * MICRO_PER_SECOND);
      clock := now;
    }

    /** The first half of the wait handler: the due timers are detached and the callbacks may begin. */
    method BeginPass(now: int, stale: bool)
      requires Inv(Now()) && Enabled(Now(), Beginning(now, stale))
      modifies this
      ensures Now() == Next(old(Now()), Beginning(now, stale))
    {
      ExpiryAsserts(Now(), now);
      DetachBatch(now, stale);
    }

    method DetachBatch(now: int, stale: bool)
      requires |timers| == |activeTimers|
      requires var end := Expired(timers, now); end == |timers| || now < timers[end].when
      requires forall i :: 0 <= i < |timers| ==> Detachable(heap, activeTimers, timers, i)
      modifies this
      ensures Now() == Begin(old(Now()), now, stale)
    {
      var expired := GetExpired(now);
      StartCalling(expired, now, stale);
    }

    method StartCalling(expired: seq<Entry>, now: int, stale: bool)
      modifies this
      ensures Now() == Calls(old(Now()), expired, now, stale)
    {
      clock := now;
      if !stale {
        wait := Unarmed;
      }
      cancelingTimers := {};
      callingExpiredTimers := true;
      batch, ran, passTime := expired, 0, now;
    }

    /** The requirements are what the source asserts. */
    method GetExpired(now: int) returns (expired: seq<Entry>)
      requires |timers| == |activeTimers|
      requires var end := Expired(timers, now); end == |timers| || now < timers[end].when
      requires forall i :: 0 <= i < |timers| ==> Detachable(heap, activeTimers, timers, i)
      modifies this`timers, this`activeTimers
      ensures expired == old(timers)[..Expired(old(timers), now)] && Now() == Detached(old(Now()), now)
    {
      var end := LowerBound(timers, Entry(now, UINTPTR_MAX));
      expired := timers[..end];
      forall i | 0 <= i < |expired|
        ensures Detachable(heap, activeTimers, expired, i)
      {
        assert Detachable(heap, activeTimers, timers, i);
        assert expired[..i] == timers[..i] && expired[..i + 1] == timers[..i + 1];
      }
      timers := timers[end..];
      DetachIds(expired);
    }

    method DetachIds(expired: seq<Entry>)
      requires forall i :: 0 <= i < |expired| ==> Detachable(heap, activeTimers, expired, i)
      modifies this`activeTimers
      ensures activeTimers == old(activeTimers) - IdsOf(heap, expired)
    {
      var i := 0;
      assert IdsOf(heap, expired[..0]) == {};
      while i < |expired|
        invariant 0 <= i <= |expired|
        invariant activeTimers == old(activeTimers) - IdsOf(heap, expired[..i])
      {
        assert Detachable(heap, old(activeTimers), expired, i);
        var id := Id(expired[i].addr, heap[expired[i].addr].sequence);
        assert id in activeTimers;
        activeTimers := activeTimers - {id};
        i := i + 1;
      }
      assert expired[..i] == expired;
    }

    /** The handler calls one timer back; what the callback itself does are further operations. */
    method RunNext() returns (t: Timer)
      requires Inv(Now()) && Enabled(Now(), Calling)
      modifies this`ran
      ensures Now() == Next(old(Now()), Calling)
      ensures t == heap[batch[old(ran)].addr] && t.expiration <= clock && ran == old(ran) + 1
      ensures CalledBy(old(Now()), Calling) == [t.sequence]
    {
      CallbackDue(Now());
      t := heap[batch[ran].addr];
      ran := ran + 1;
    }

    /** The second half of the handler: every timer of the batch is restarted or deleted, and the wait re-armed. */
    method EndPass(now: int)
      requires Inv(Now()) && Enabled(Now(), Ending(now))
      modifies this
      ensures Now() == Next(old(Now()), Ending(now))
    {
      SameTimersCore(Now(), Now().(calling := false));
      callingExpiredTimers := false;
      Reset();
      FirstEntryOk(Now());
      RearmForFirst(now);
    }

    /** Armed for the earliest timer, if its expiration is valid. */
    method RearmForFirst(now: int)
      requires timers != [] ==> timers[0].addr in heap && heap[timers[0].addr].expiration == timers[0].when
      modifies this`wait, this`clock
      ensures Now() == ArmedForFirst(old(Now()), now)
    {
      var nextExpire := 0;
      if timers != [] {
        nextExpire := heap[timers[0].addr].expiration;
      }
      clock := now;
      if nextExpire > 0 {
        Rearm(nextExpire, now);
      }
    }

    method Reset()
      requires Core(Now())
      modifies this`heap, this`timers, this`activeTimers, this`batch
      ensures Now() == ResetAll(old(Now()))
    {
      ghost var s := Now();
      while batch != []
        invariant Now() == s && Core(s) && ResetAll(s) == ResetAll(old(Now()))
        decreases |batch|
      {
        ResetOneKeepsCore(s);
        ResetNext(s);
        s := ResetOne(s);
      }
    }

    method ResetNext(ghost s: State)
      requires Now() == s && Core(s) && s.batch != []
      modifies this`heap, this`timers, this`activeTimers, this`batch
      ensures s.batch[0].addr in s.heap && Now() == ResetOne(s)
    {
      ResetAsserts(s);
      ResetFirst();
    }

    method ResetFirst()
      requires batch != [] && batch[0].addr in heap && |timers| == |activeTimers|
      requires Id(batch[0].addr, heap[batch[0].addr].sequence) !in activeTimers
      requires !Found(timers, Entry(passTime + heap[batch[0].addr].delta, batch[0].addr))
      modifies this`heap, this`timers, this`activeTimers, this`batch
      ensures Now() == ResetOne(old(Now()))
    {
      var a := batch[0].addr;
      batch := batch[1..];
      if heap[a].repeat && Id(a, heap[a].sequence) !in cancelingTimers {
        heap := heap[a := heap[a].(expiration := passTime + heap[a].delta)];
        var _ := InsertTimer(a);
      } else {
        heap := heap - {a};
      }
    }
  }

  lemma FirstEntryOk(s: State)
    requires Core(s)
    ensures s.timers != [] ==> s.timers[0].addr in s.heap && s.heap[s.timers[0].addr].expiration == s.timers[0].when
  {
    assert s.timers != [] ==> s.timers[0] in s.timers && EntryOk(s, s.timers[0]);
  }

  lemma ResetAsserts(s: State)
    requires Core(s) && s.batch != []
    ensures s.batch[0].addr in s.heap && |s.timers| == |s.active| && IdOf(s, s.batch[0].addr) !in s.active
    ensures !Found(s.timers, Entry(s.passTime + s.heap[s.batch[0].addr].delta, s.batch[0].addr))
  {
    RemoveFirstKeepsCore(s);
    RestartedInsertable(s);
    InsertAsserts(Restarted(s), s.batch[0].addr);
  }

  lemma ExpiryAsserts(s: State, now: int)
    requires Core(s)
    ensures |s.timers| == |s.active|
    ensures var end := Expired(s.timers, now); end == |s.timers| || now < s.timers[end].when
    ensures forall i :: 0 <= i < |s.timers| ==> Detachable(s.heap, s.active, s.timers, i)
  {
    SizesAgree(s);
    ExpiredExact(s, now);
    forall i | 0 <= i < |s.timers|
      ensures Detachable(s.heap, s.active, s.timers, i)
    {
      AllDetachable(s, i);
    }
  }

  /** What the source asserts about sizes and results while it cancels. */
  lemma CancelAsserts(s: State, id: Id)
    requires Inv(s)
    ensures |s.timers| == |s.active|
    ensures id in s.active ==> id.addr in s.heap && Found(s.timers, Entry(s.heap[id.addr].expiration, id.addr))
  {
    SizesAgree(s);
    if id in s.active {
      assert ActiveOk(s, id);
      FoundExact(s.timers, Entry(s.heap[id.addr].expiration, id.addr));
    }
  }

  /** The same for an insertion: neither index holds the timer yet. */
  lemma InsertAsserts(s: State, a: Addr)
    requires Insertable(s, a)
    ensures |s.timers| == |s.active| && !Found(s.timers, Entry(s.heap[a].expiration, a)) && IdOf(s, a) !in s.active
  {
    InsertNew(s, a);
    SizesAgree(s.(heap := s.heap - {a}));
  }

  lemma PostedInsertable(s: State, a: Addr, now: int)
    requires Inv(s) && a in s.posted && s.clock <= now
    ensures Insertable(s.(posted := s.posted - {a}, clock := now), a)
  {
    assert HeapOk(s, a);
    UnpostKeepsCore(s, a);
    SameTimersCore(s.(posted := s.posted - {a}, heap := s.heap - {a}),
      s.(posted := s.posted - {a}, clock := now, heap := s.heap - {a}));
  }
}
