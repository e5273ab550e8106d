/** The simple view of a timing wheel: for every live event, how many ticks pass before the one that runs it. */
module RemainingTicks {

  type Ticks<!E> = map<E, nat>

  function Due<E>(m: Ticks<E>): set<E> {
    set e | e in m && m[e] == 0
  }

  function AfterTick<E>(m: Ticks<E>): Ticks<E> {
    map e | e in m && m[e] > 0 :: m[e] - 1
  }

  datatype Op<E> = Add(e: E, ticks: nat) | Cancel(e: E) | Tick

  function Step<E>(m: Ticks<E>, op: Op<E>): Ticks<E> {
    match op
    case Add(e, ticks) => m[e := ticks]
    case Cancel(e) => m - {e}
    case Tick => AfterTick(m)
  }

  function Run<E>(m: Ticks<E>, ops: seq<Op<E>>): Ticks<E> {
    if ops == [] then m else Step(Run(m, ops[..|ops| - 1]), ops[|ops| - 1])
  }

  function TicksIn<E>(ops: seq<Op<E>>): nat {
    if ops == [] then 0 else TicksIn(ops[..|ops| - 1]) + if ops[|ops| - 1].Tick? then 1 else 0
  }

  predicate NotAdded<E(==)>(e: E, ops: seq<Op<E>>) {
    forall i :: 0 <= i < |ops| && ops[i].Add? ==> ops[i].e != e
  }

  /**
   Whatever else is added, cancelled or expires: an event with k ticks to go is live, with one tick
   less after each tick, until it is cancelled or the (k+1)-th tick comes, which is the one and only
   tick that runs it, and does so exactly if it has not been cancelled before.
   */
  lemma {:induction false} RunsExactlyOnce<E>(m: Ticks<E>, e: E, ops: seq<Op<E>>)
    requires e in m && NotAdded(e, ops)
    ensures var now, n := Run(m, ops), TicksIn(ops);
      (e in now <==> n <= m[e] && Op.Cancel(e) !in ops) &&
      (e in now ==> now[e] == m[e] - n) &&
      (e in Due(now) <==> n == m[e] && Op.Cancel(e) !in ops)
  {
    if ops != [] {
      assert ops == ops[..|ops| - 1] + [ops[|ops| - 1]];
      RunsExactlyOnce(m, e, ops[..|ops| - 1]);
    }
  }
}

/**
 The hashed timing wheel: an array of doubly linked lists of heap-allocated events and a cursor that
 turns by one slot per tick.  An event waits in the slot where its last turn ends, with the number of
 whole turns still to go.
 */
module TimerWheels {
  import opened Machine
  import opened RemainingTicks

  // ------------------------------------------------------------------ arithmetic

  /** The ticks asked for; `ts_` is 1, and a timeout of 0 counts as one tick. */
  function TicksFor(timeout: int): int {
    if timeout < 1 then 1 else ToInt32(timeout / 1)
  }

  function RotationFor(timeout: int, slotsNum: int): int
    requires slotsNum > 0
  {
    ToInt32(ToUint32(TicksFor(timeout)) / slotsNum)
  }

  function PositionFor(cursor: int, timeout: int, slotsNum: int): int
    requires slotsNum > 0
  {
    ToUint32(ToUint32(cursor) + ToUint32(TicksFor(timeout)) % slotsNum) % slotsNum
  }

  function Advance(cursor: int, slotsNum: int): int
    requires slotsNum > 0
  {
    ToUint32(cursor + 1) % slotsNum
  }

  /** How many ticks pass an event by before the tick that runs it. */
  function TicksLeft(rotation: int, slot: int, cursor: int, slotsNum: int): (n: nat)
    requires slotsNum > 0
  {
    (if rotation > 0 then rotation else 0) * slotsNum + (slot - cursor) % slotsNum
  }

  /** The ticks an added event is passed by: its timeout, unless one slot makes the turns overflow an `int`. */
  function TicksGranted(timeout: int, slotsNum: int): (n: nat) {
    if slotsNum == 1 && timeout >= TWO_31 then 0 else if timeout < 1 then 1 else timeout
  }

  predicate WheelSize(slotsNum: int) { 1 <= slotsNum < TWO_31 }

  predicate Timeout(timeout: int) { 0 <= timeout < TWO_32 }

  /** In 32-bit arithmetic an added event is granted its timeout exactly unless the turns overflow. */
  lemma AddGrantsTimeout(cursor: int, timeout: int, slotsNum: int)
    requires WheelSize(slotsNum) && Timeout(timeout) && 0 <= cursor < slotsNum
    ensures 0 <= PositionFor(cursor, timeout, slotsNum) < slotsNum
    ensures TicksLeft(RotationFor(timeout, slotsNum), PositionFor(cursor, timeout, slotsNum), cursor, slotsNum) ==
      TicksGranted(timeout, slotsNum)
    ensures TicksGranted(timeout, slotsNum) == (if timeout < 1 then 1 else timeout) <==>
      (slotsNum >= 2 || timeout < TWO_31)
  {
    var t := if timeout < 1 then 1 else timeout;
    InUnsigned(cursor, timeout, slotsNum);
    RotationExact(t, slotsNum);
    PositionExact(cursor, t % slotsNum, slotsNum);
    Recompose(t, slotsNum);
    hide RotationFor, PositionFor, ToInt32, ToUint32;
  }

  /** The ticks are a `uint32_t` again before they are divided. */
  lemma InUnsigned(cursor: int, timeout: int, slotsNum: int)
    requires WheelSize(slotsNum) && Timeout(timeout) && 0 <= cursor < slotsNum
    ensures var t := if timeout < 1 then 1 else timeout;
      RotationFor(timeout, slotsNum) == ToInt32(t / slotsNum) &&
      PositionFor(cursor, timeout, slotsNum) == ToUint32(ToUint32(cursor) + t % slotsNum) % slotsNum
  {
    TicksInUnsigned(timeout);
    hide TicksFor, ToUint32, ToInt32;
  }

  lemma TicksInUnsigned(timeout: int)
    requires Timeout(timeout)
    ensures ToUint32(TicksFor(timeout)) == if timeout < 1 then 1 else timeout
  {
  }

  lemma Recompose(t: int, n: int)
    requires n > 0
    ensures t / n * n + t % n == t
  {
  }

  lemma PositionExact(cursor: int, r: int, slotsNum: int)
    requires WheelSize(slotsNum) && 0 <= cursor < slotsNum && 0 <= r < slotsNum
    ensures (ToUint32(ToUint32(cursor) + r) % slotsNum - cursor) % slotsNum == r
    ensures 0 <= ToUint32(ToUint32(cursor) + r) % slotsNum < slotsNum
  {
    assert ToUint32(cursor + r) == cursor + r;
    Around(cursor, r, slotsNum);
  }

  lemma RotationExact(t: int, slotsNum: int)
    requires WheelSize(slotsNum) && 0 <= t < TWO_32
    ensures if slotsNum == 1 && t >= TWO_31 then ToInt32(t / slotsNum) < 0 && t % slotsNum == 0
      else ToInt32(t / slotsNum) == t / slotsNum >= 0
  {
    if slotsNum >= 2 {
      HalfAtMost(t, slotsNum);
    } else {
      assert t / 1 == t;
    }
  }

  lemma HalfAtMost(t: int, n: int)
    requires 0 <= t < TWO_32 && n >= 2
    ensures 0 <= t / n < TWO_31
  {
    ProductAtLeast(t / n, n, 2);
  }

  lemma ProductAtLeast(q: int, n: int, m: int)
    requires q >= 0 && n >= m
    ensures q * n >= q * m
  {
  }

  lemma Around(c: int, r: int, n: int)
    requires 0 <= c < n && 0 <= r < n
    ensures ((c + r) % n - c) % n == r
  {
    var p := (c + r) % n;
    if c + r < n {
      Residue(c + r, c + r, n, 0);
      Residue(p - c, r, n, 0);
    } else {
      Residue(c + r, c + r - n, n, 1);
      Residue(p - c, r, n, -1);
    }
  }

  lemma Residue(x: int, r: int, n: int, q: int)
    requires 0 <= r < n && x == q * n + r
    ensures x % n == r
  {
    var d := x / n - q;
    assert d * n == r - x % n by {
      assert x == x / n * n + x % n;
    }
    if d > 0 {
      ProductAtLeast(n, d, 1);
    } else if d < 0 {
      ProductAtLeast(n, -d, 1);
    }
  }

  lemma Distance(slot: int, cursor: int, n: int)
    requires 0 <= slot < n && 0 <= cursor < n
    ensures (slot - cursor) % n == if cursor <= slot then slot - cursor else slot - cursor + n
  {
    if cursor <= slot {
      Residue(slot - cursor, slot - cursor, n, 0);
    } else {
      Residue(slot - cursor, slot - cursor + n, n, -1);
    }
  }

  lemma Advanced(cursor: int, slotsNum: int)
    requires WheelSize(slotsNum) && 0 <= cursor < slotsNum
    ensures Advance(cursor, slotsNum) == if cursor + 1 < slotsNum then cursor + 1 else 0
  {
    if cursor + 1 < slotsNum {
      Residue(cursor + 1, cursor + 1, slotsNum, 0);
    } else {
      Residue(cursor + 1, 0, slotsNum, 1);
    }
  }

  lemma TurnLess(r: nat, n: nat)
    requires r > 0 && n > 0
    ensures (r - 1) * n + n == r * n && r * n >= n
  {
  }

  /** A tick brings every event one tick nearer, whether it turns its slot or another one. */
  lemma TickCountsDown(rotation: int, slot: int, cursor: int, slotsNum: int)
    requires WheelSize(slotsNum) && 0 <= cursor < slotsNum && 0 <= slot < slotsNum
    ensures 0 <= Advance(cursor, slotsNum) < slotsNum
    ensures TicksLeft(rotation, slot, cursor, slotsNum) == 0 <==> slot == cursor && rotation <= 0
    ensures TicksLeft(rotation, slot, cursor, slotsNum) > 0 ==>
      TicksLeft(if slot == cursor then rotation - 1 else rotation, slot, Advance(cursor, slotsNum), slotsNum) ==
      TicksLeft(rotation, slot, cursor, slotsNum) - 1
  {
    Advanced(cursor, slotsNum);
    Distance(slot, cursor, slotsNum);
    Distance(slot, if cursor + 1 < slotsNum then cursor + 1 else 0, slotsNum);
    if rotation > 0 {
      TurnLess(rotation, slotsNum);
    }
  }

  predicate IncrementFits(cursor: int) { cursor + 1 < TWO_31 }

  /** The cursor is an `int` that is incremented before it is reduced: 2^31 slots are too many, fewer are not. */
  lemma CursorFits(slotsNum: int)
    requires 1 <= slotsNum < TWO_32
    ensures (forall cursor :: 0 <= cursor < slotsNum ==> IncrementFits(cursor)) <==> WheelSize(slotsNum)
  {
    if !WheelSize(slotsNum) {
      assert !IncrementFits(TWO_31 - 1);
    }
  }

  /**
   An event added with timeout t is run by exactly the (max(t, 1) + 1)-th later tick, unless it has been
   cancelled by then: `ops` are the operations before that tick.  With a single slot, a timeout of 2^31
   or more is run by the very first tick instead.
   */
  lemma TimeoutExact<E>(m: Ticks<E>, e: E, timeout: int, slotsNum: int, ops: seq<Op<E>>)
    requires WheelSize(slotsNum) && Timeout(timeout) && NotAdded(e, ops)
    ensures var m' := Step(m, Add(e, TicksGranted(timeout, slotsNum)));
      var ticks := if slotsNum >= 2 || timeout < TWO_31 then (if timeout < 1 then 1 else timeout) else 0;
      e in Due(Run(m', ops)) <==> TicksIn(ops) == ticks && Op.Cancel(e) !in ops
  {
    RunsExactlyOnce(Step(m, Add(e, TicksGranted(timeout, slotsNum))), e, ops);
  }

  // ------------------------------------------------------------------ the linked structure

  class TimerEvent {
    const timerSlot: int
    var rotation: int
    var prev: TimerEvent?
    var next: TimerEvent?

    constructor (rotation: int, timerSlot: int)
      ensures this.rotation == rotation && this.timerSlot == timerSlot
      ensures prev == null && next == null
    {
      this.rotation, this.timerSlot := rotation, timerSlot;
      prev, next := null, null;
    }
  }

  function Given(e: TimerEvent?): set<TimerEvent> {
    if e == null then {} else {e}
  }

  function At(c: seq<TimerEvent>, i: int): TimerEvent? {
    if 0 <= i < |c| then c[i] else null
  }

  /** The i-th event of the chain `c` belongs to slot `s` and is linked to both its neighbours. */
  ghost predicate Linked(c: seq<TimerEvent>, i: int, s: int)
    requires 0 <= i < |c|
    reads c
  {
    c[i].timerSlot == s && c[i].prev == At(c, i - 1) && c[i].next == At(c, i + 1)
  }

  predicate Distinct<T(==)>(c: seq<T>) {
    forall i, j :: 0 <= i < j < |c| ==> c[i] != c[j]
  }

  ghost predicate Chained(c: seq<TimerEvent>, s: int)
    reads c
  {
    Distinct(c) && forall i :: 0 <= i < |c| ==> Linked(c, i, s)
  }

  function Without<T>(c: seq<T>, k: nat): seq<T>
    requires k < |c|
  {
    c[..k] + c[k + 1..]
  }

  /** The same for i != k once the k-th event is bypassed. */
  ghost predicate LinkedPast(c: seq<TimerEvent>, k: int, i: int, s: int)
    requires 0 <= i < |c|
    reads c
  {
    && c[i].timerSlot == s
    && c[i].prev == At(c, if i == k + 1 then k - 1 else i - 1)
    && c[i].next == At(c, if i == k - 1 then k + 1 else i + 1)
  }

  lemma ChainedWithout(c: seq<TimerEvent>, k: nat, s: int)
    requires Distinct(c) && k < |c|
    requires forall i :: 0 <= i < |c| && i != k ==> LinkedPast(c, k, i, s)
    ensures Chained(Without(c, k), s)
  {
    var d := Without(c, k);
    forall j | 0 <= j < |d|
      ensures Linked(d, j, s)
    {
      var i := if j < k then j else j + 1;
      assert d[j] == c[i] && LinkedPast(c, k, i, s);
    }
  }

  /** Links the neighbours of the k-th event of a chain to each other; the head has none before it. */
  method Detach(e: TimerEvent, isHead: bool, ghost c: seq<TimerEvent>, ghost k: nat) returns (following: TimerEvent?)
    requires Chained(c, e.timerSlot) && k < |c| && c[k] == e && (isHead <==> k == 0)
    modifies c
    ensures forall x :: x in c ==> x.rotation == old(x.rotation)
    ensures Chained(Without(c, k), e.timerSlot)
    ensures following == At(c, k + 1)
  {
    ghost var s := e.timerSlot;
    assert Linked(c, k, s);
    following := e.next;
    if isHead {
      if following != null {
        following.prev := null;
      }
    } else {
      e.prev.next := e.next;
      if e.next != null {
        e.next.prev := e.prev;
      }
    }
    forall i | 0 <= i < |c| && i != k
      ensures LinkedPast(c, k, i, s)
    {
      assert old(Linked(c, i, s));
    }
    ChainedWithout(c, k, s);
  }

  /** Links a new event in front of the head of a chain. */
  method Attach(e: TimerEvent, head: TimerEvent?, ghost c: seq<TimerEvent>)
    requires Chained(c, e.timerSlot) && head == At(c, 0)
    requires e !in c && e.prev == null && e.next == null
    modifies e`next, c
    ensures forall x :: x in c ==> x.rotation == old(x.rotation)
    ensures Chained([e] + c, e.timerSlot)
  {
    if head != null {
      e.next := head;
      head.prev := e;
    }
    ghost var d := [e] + c;
    forall j | 0 <= j < |d|
      ensures Linked(d, j, e.timerSlot)
    {
      if j > 0 {
        assert d[j] == c[j - 1] && old(Linked(c, j - 1, e.timerSlot));
      }
    }
  }

  type Rotations = map<TimerEvent, int>

  predicate Turns(e: TimerEvent, rotations: Rotations) {
    e in rotations && rotations[e] > 0
  }

  /** The events of a chain that a tick runs, and those it only turns, each in chain order. */
  function Expiring(c: seq<TimerEvent>, rotations: Rotations): seq<TimerEvent> {
    if c == [] then []
    else
      var last := c[|c| - 1];
      var x := Expiring(c[..|c| - 1], rotations);
      if Turns(last, rotations) then x else x + [last]
  }

  function Surviving(c: seq<TimerEvent>, rotations: Rotations): seq<TimerEvent> {
    if c == [] then []
    else
      var last := c[|c| - 1];
      var v := Surviving(c[..|c| - 1], rotations);
      if Turns(last, rotations) then v + [last] else v
  }

  lemma {:induction false} ExpiringHas(c: seq<TimerEvent>, rotations: Rotations, e: TimerEvent)
    ensures e in Expiring(c, rotations) <==> e in c && !Turns(e, rotations)
  {
    if c != [] {
      var init, last := c[..|c| - 1], c[|c| - 1];
      assert c == init + [last];
      ExpiringHas(init, rotations, e);
    }
  }

  lemma {:induction false} SurvivingHas(c: seq<TimerEvent>, rotations: Rotations, e: TimerEvent)
    ensures e in Surviving(c, rotations) <==> e in c && Turns(e, rotations)
  {
    if c != [] {
      var init, last := c[..|c| - 1], c[|c| - 1];
      assert c == init + [last];
      SurvivingHas(init, rotations, e);
    }
  }

  /** Both keep the order of the chain: whatever a longer chain adds comes behind. */
  lemma {:induction false} OrderKept(c: seq<TimerEvent>, k: nat, rotations: Rotations)
    requires k <= |c|
    ensures Expiring(c[..k], rotations) <= Expiring(c, rotations)
    ensures Surviving(c[..k], rotations) <= Surviving(c, rotations)
  {
    if k == |c| {
      assert c[..k] == c;
    } else {
      OrderKept(c[..|c| - 1], k, rotations);
      assert c[..|c| - 1][..k] == c[..k];
    }
  }

  lemma {:induction false} ExpiringDistinct(c: seq<TimerEvent>, rotations: Rotations)
    requires Distinct(c)
    ensures Distinct(Expiring(c, rotations))
  {
    if c != [] {
      ExpiringDistinct(c[..|c| - 1], rotations);
      ExpiringHas(c[..|c| - 1], rotations, c[|c| - 1]);
    }
  }

  /** What a visit does to the turns: the event loses one, or goes if it has none. */
  function VisitOne(rotations: Rotations, e: TimerEvent): Rotations {
    if Turns(e, rotations) then rotations[e := rotations[e] - 1] else rotations - {e}
  }

  function VisitAll(rotations: Rotations, c: seq<TimerEvent>): Rotations {
    if c == [] then rotations else VisitOne(VisitAll(rotations, c[..|c| - 1]), c[|c| - 1])
  }

  lemma {:induction false} VisitAllAt(rotations: Rotations, c: seq<TimerEvent>, e: TimerEvent)
    requires Distinct(c) && e in rotations
    ensures e in VisitAll(rotations, c) <==> e !in c || Turns(e, rotations)
    ensures e in VisitAll(rotations, c) ==> VisitAll(rotations, c)[e] == rotations[e] - if e in c then 1 else 0
  {
    if c != [] {
      var init, last := c[..|c| - 1], c[|c| - 1];
      assert c == init + [last];
      VisitAllAt(rotations, init, e);
    }
  }

  lemma TraversalGoesOn(chain: seq<TimerEvent>, i: nat, rotations: Rotations)
    requires i < |chain| && Distinct(chain) && chain[i] in rotations
    ensures Turns(chain[i], VisitAll(rotations, chain[..i])) <==> Turns(chain[i], rotations)
    ensures VisitAll(rotations, chain[..i + 1]) == VisitOne(VisitAll(rotations, chain[..i]), chain[i])
    ensures var x := Expiring(chain[..i], rotations);
      Expiring(chain[..i + 1], rotations) == if Turns(chain[i], rotations) then x else x + [chain[i]]
    ensures var v := Surviving(chain[..i], rotations);
      Surviving(chain[..i + 1], rotations) == if Turns(chain[i], rotations) then v + [chain[i]] else v
  {
    assert chain[..i + 1][..i] == chain[..i];
    VisitAllAt(rotations, chain[..i], chain[i]);
  }

  lemma ChainAt(kept: seq<TimerEvent>, chain: seq<TimerEvent>, i: nat)
    requires i < |chain|
    ensures (kept + chain[i..])[|kept|] == chain[i]
    ensures At(kept + chain[i..], |kept| + 1) == At(chain, i + 1)
    ensures kept + [chain[i]] + chain[i + 1..] == kept + chain[i..]
    ensures Without(kept + chain[i..], |kept|) == kept + chain[i + 1..]
  {
  }

  lemma UpdateTwice<T>(s: seq<T>, i: nat, x: T, y: T)
    requires i < |s|
    ensures s[i := x][i] == x && s[i := x][i := y] == s[i := y]
  {
  }

  function Members(c: seq<TimerEvent>): set<TimerEvent> {
    set e | e in c
  }

  lemma MembersOfSnoc(c: seq<TimerEvent>, e: TimerEvent)
    ensures Members(c + [e]) == Members(c) + {e}
  {
  }

  datatype Snapshot = Snapshot(chains: seq<seq<TimerEvent>>, nodes: set<TimerEvent>, freed: set<TimerEvent>,
    rotations: Rotations)

  /** What a visit to the k-th event of a slot does to the wheel. */
  function Visited(s: Snapshot, slot: nat, k: nat): Snapshot
    requires slot < |s.chains| && k < |s.chains[slot]|
  {
    var e := s.chains[slot][k];
    var rotations := VisitOne(s.rotations, e);
    if Turns(e, s.rotations) then s.(rotations := rotations)
    else Snapshot(s.chains[slot := Without(s.chains[slot], k)], s.nodes - {e}, s.freed + {e}, rotations)
  }

  /** What the whole traversal of a slot does to the wheel. */
  function TraversalOf(s: Snapshot, slot: nat): Snapshot
    requires slot < |s.chains|
  {
    var chain := s.chains[slot];
    var gone := Members(Expiring(chain, s.rotations));
    Snapshot(s.chains[slot := Surviving(chain, s.rotations)], s.nodes - gone, s.freed + gone,
      VisitAll(s.rotations, chain))
  }

  /** How far a traversal of a slot that began in `was` has come after i events, having run those in `fired`. */
  predicate Traversed(was: Snapshot, slot: nat, i: nat, fired: seq<TimerEvent>, now: Snapshot)
    requires slot < |was.chains|
  {
    var chain := was.chains[slot];
    && i <= |chain|
    && fired == Expiring(chain[..i], was.rotations)
    && now.chains == was.chains[slot := Surviving(chain[..i], was.rotations) + chain[i..]]
    && now.nodes == was.nodes - Members(fired) && now.freed == was.freed + Members(fired)
    && now.rotations == VisitAll(was.rotations, chain[..i])
  }

  lemma TraversedStarts(was: Snapshot, slot: nat)
    requires slot < |was.chains|
    ensures Traversed(was, slot, 0, [], was)
  {
    var chain := was.chains[slot];
    assert Surviving(chain[..0], was.rotations) + chain[0..] == chain;
  }

  lemma TraversedEnds(was: Snapshot, slot: nat, fired: seq<TimerEvent>, now: Snapshot)
    requires slot < |was.chains| && Traversed(was, slot, |was.chains[slot]|, fired, now)
    ensures fired == Expiring(was.chains[slot], was.rotations) && now == TraversalOf(was, slot)
  {
    var chain := was.chains[slot];
    assert chain[..|chain|] == chain;
    assert Surviving(chain, was.rotations) + chain[|chain|..] == Surviving(chain, was.rotations);
  }

  lemma TraversedNext(was: Snapshot, slot: nat, i: nat, fired: seq<TimerEvent>, now: Snapshot)
    requires slot < |was.chains| && i < |was.chains[slot]| && Traversed(was, slot, i, fired, now)
    requires Distinct(was.chains[slot]) && was.chains[slot][i] in was.rotations
    ensures var e, k := was.chains[slot][i], |Surviving(was.chains[slot][..i], was.rotations)|;
      k < |now.chains[slot]| && now.chains[slot][k] == e &&
      At(now.chains[slot], k + 1) == At(was.chains[slot], i + 1) &&
      Traversed(was, slot, i + 1, if Turns(e, now.rotations) then fired else fired + [e], Visited(now, slot, k))
  {
    hide Expiring, Surviving, VisitAll;
    var chain := was.chains[slot];
    var kept := Surviving(chain[..i], was.rotations);
    ChainAt(kept, chain, i);
    UpdateTwice(was.chains, slot, kept + chain[i..], kept + chain[i + 1..]);
    TraversalGoesOn(chain, i, was.rotations);
    MembersOfSnoc(fired, chain[i]);
  }

  /** The simple view of a wheel. */
  function RemainingOf(rotations: Rotations, cursor: int, slotsNum: int): Ticks<TimerEvent>
    requires slotsNum > 0
  {
    map e | e in rotations :: TicksLeft(rotations[e], e.timerSlot, cursor, slotsNum)
  }

  lemma RemainingChanges(rotations: Rotations, e: TimerEvent, rotation: int, cursor: int, slotsNum: int)
    requires slotsNum > 0
    ensures RemainingOf(rotations - {e}, cursor, slotsNum) == RemainingOf(rotations, cursor, slotsNum) - {e}
    ensures RemainingOf(rotations[e := rotation], cursor, slotsNum) ==
            RemainingOf(rotations, cursor, slotsNum)[e := TicksLeft(rotation, e.timerSlot, cursor, slotsNum)]
  {
  }

  /** An event put where an add puts it, in the simple view. */
  lemma AddedView(rotations: Rotations, e: TimerEvent, timeout: int, cursor: int, slotsNum: int)
    requires WheelSize(slotsNum) && Timeout(timeout) && 0 <= cursor < slotsNum
    ensures e.timerSlot == PositionFor(cursor, timeout, slotsNum) ==>
      RemainingOf(rotations[e := RotationFor(timeout, slotsNum)], cursor, slotsNum) ==
      Step(RemainingOf(rotations, cursor, slotsNum), Add(e, TicksGranted(timeout, slotsNum)))
  {
    AddGrantsTimeout(cursor, timeout, slotsNum);
    RemainingChanges(rotations, e, RotationFor(timeout, slotsNum), cursor, slotsNum);
  }

  /** What a valid wheel guarantees about the slot under its cursor. */
  ghost predicate CursorSlotOk(s: Snapshot, cursor: int, slotsNum: int) {
    && WheelSize(slotsNum) && 0 <= cursor < slotsNum == |s.chains|
    && Distinct(s.chains[cursor])
    && (forall i :: 0 <= i < |s.chains[cursor]| ==>
      s.chains[cursor][i] in s.rotations && s.chains[cursor][i].timerSlot == cursor)
    && (forall e :: e in s.rotations ==>
      0 <= e.timerSlot < slotsNum && (e.timerSlot == cursor ==> e in s.chains[cursor]))
  }

  /**
   The traversal of the current slot runs exactly the events with no ticks left, and is, once the
   cursor has moved, one tick of the simple view.
   */
  lemma TickOfSnapshot(s: Snapshot, cursor: int, slotsNum: int)
    requires CursorSlotOk(s, cursor, slotsNum)
    ensures Members(Expiring(s.chains[cursor], s.rotations)) == Due(RemainingOf(s.rotations, cursor, slotsNum))
    ensures Distinct(Expiring(s.chains[cursor], s.rotations))
    ensures 0 <= Advance(cursor, slotsNum) < slotsNum
    ensures RemainingOf(TraversalOf(s, cursor).rotations, Advance(cursor, slotsNum), slotsNum) ==
            AfterTick(RemainingOf(s.rotations, cursor, slotsNum))
  {
    TraversalRunsDue(s, cursor, slotsNum);
    TraversalCountsDown(s, cursor, slotsNum);
  }

  lemma TraversalRunsDue(s: Snapshot, cursor: int, slotsNum: int)
    requires CursorSlotOk(s, cursor, slotsNum)
    ensures Members(Expiring(s.chains[cursor], s.rotations)) == Due(RemainingOf(s.rotations, cursor, slotsNum))
    ensures Distinct(Expiring(s.chains[cursor], s.rotations))
  {
    var c, r := s.chains[cursor], s.rotations;
    ExpiringDistinct(c, r);
    forall e | e in Expiring(c, r)
      ensures e in r
    {
      ExpiringHas(c, r, e);
    }
    forall e | e in r
      ensures e in Expiring(c, r) <==> RemainingOf(r, cursor, slotsNum)[e] == 0
    {
      ExpiringHas(c, r, e);
      TickCountsDown(r[e], e.timerSlot, cursor, slotsNum);
    }
    assert Members(Expiring(c, r)) == Due(RemainingOf(r, cursor, slotsNum));
  }

  lemma TraversalCountsDown(s: Snapshot, cursor: int, slotsNum: int)
    requires CursorSlotOk(s, cursor, slotsNum)
    ensures 0 <= Advance(cursor, slotsNum) < slotsNum
    ensures RemainingOf(VisitAll(s.rotations, s.chains[cursor]), Advance(cursor, slotsNum), slotsNum) ==
            AfterTick(RemainingOf(s.rotations, cursor, slotsNum))
  {
    var before, r := RemainingOf(s.rotations, cursor, slotsNum), VisitAll(s.rotations, s.chains[cursor]);
    TickCountsDown(0, 0, cursor, slotsNum);
    VisitAllKeys(s.rotations, s.chains[cursor]);
    forall e | e in s.rotations
      ensures e in r <==> before[e] > 0
      ensures e in r ==> TicksLeft(r[e], e.timerSlot, Advance(cursor, slotsNum), slotsNum) == before[e] - 1
    {
      VisitAllAt(s.rotations, s.chains[cursor], e);
      TickCountsDown(s.rotations[e], e.timerSlot, cursor, slotsNum);
    }
  }

  lemma {:induction false} VisitAllKeys(rotations: Rotations, c: seq<TimerEvent>)
    requires forall i :: 0 <= i < |c| ==> c[i] in rotations
    ensures VisitAll(rotations, c).Keys <= rotations.Keys
  {
    if c != [] {
      VisitAllKeys(rotations, c[..|c| - 1]);
    }
  }

  class TimerWheel {
    const slotsNum: int
    const slots: array<TimerEvent?>
    var currentSlotPos: int
    ghost var chains: seq<seq<TimerEvent>>
    ghost var nodes: set<TimerEvent>
    // the events given to `delete`
    ghost var freed: set<TimerEvent>

    /** A slot holds the head of its chain, whose events are all live and belong there. */
    ghost predicate SlotOk(s: int)
      requires 0 <= s < |chains| && s < slots.Length
      reads this`chains, this`nodes, slots, nodes
    {
      && (forall i :: 0 <= i < |chains[s]| ==> chains[s][i] in nodes && chains[s][i].timerSlot == s)
      && Chained(chains[s], s)
      && slots[s] == At(chains[s], 0)
    }

    ghost predicate NodeOk(e: TimerEvent)
      reads this`chains
    {
      0 <= e.timerSlot < |chains| && e in chains[e.timerSlot]
    }

    ghost predicate Valid()
      reads this, slots, nodes
    {
      && WheelSize(slotsNum) && 0 <= currentSlotPos < slotsNum && nodes !! freed
      && slots.Length == slotsNum && |chains| == slotsNum
      && (forall s :: 0 <= s < slotsNum ==> SlotOk(s))
      && (forall e :: e in nodes ==> NodeOk(e))
    }

    ghost function RotationOf(): Rotations
      reads this`nodes, nodes
    {
      map e | e in nodes :: e.rotation
    }

    ghost function Now(): Snapshot
      reads this`chains, this`nodes, this`freed, nodes
    {
      Snapshot(chains, nodes, freed, RotationOf())
    }

    ghost function Remaining(): Ticks<TimerEvent>
      reads this, slots, nodes
      requires Valid()
    {
      RemainingOf(RotationOf(), currentSlotPos, slotsNum)
    }

    /** The source never sets the cursor; it has to start inside the wheel. */
    constructor (slotsNum: int, start: int)
      requires WheelSize(slotsNum) && 0 <= start < slotsNum
      ensures Valid() && fresh(slots)
      ensures this.slotsNum == slotsNum && currentSlotPos == start && Remaining() == map[]
    {
      this.slotsNum, currentSlotPos := slotsNum, start;
      slots := new TimerEvent?[slotsNum](_ => null);
      chains := seq(slotsNum, _ => []);
      nodes, freed := {}, {};
    }

    method AddTimer(timeout: int) returns (timerEvent: TimerEvent)
      requires Valid() && Timeout(timeout)
      modifies this`chains, this`nodes, slots, nodes
      ensures Valid() && fresh(timerEvent) && nodes == old(nodes) + {timerEvent} && freed == old(freed)
      ensures chains == old(chains)[timerEvent.timerSlot := [timerEvent] + old(chains)[timerEvent.timerSlot]]
      ensures Remaining() == Step(old(Remaining()), Add(timerEvent, TicksGranted(timeout, slotsNum)))
    {
      var rotation := RotationFor(timeout, slotsNum);
      var pos := PositionFor(currentSlotPos, timeout, slotsNum);
      AddGrantsTimeout(currentSlotPos, timeout, slotsNum);
      timerEvent := new TimerEvent(rotation, pos);
      ghost var rotations := RotationOf();
      Insert(timerEvent);
      assert RotationOf() == rotations[timerEvent := rotation];
      AddedView(rotations, timerEvent, timeout, currentSlotPos, slotsNum);
    }

    /** A new event goes in front of the chain of its slot. */
    method Insert(timerEvent: TimerEvent)
      requires Valid() && 0 <= timerEvent.timerSlot < slotsNum && timerEvent.prev == null && timerEvent.next == null
      requires timerEvent !in nodes && timerEvent !in freed
      modifies this`chains, this`nodes, slots, nodes, timerEvent`next
      ensures Valid() && nodes == old(nodes) + {timerEvent}
      ensures chains == old(chains)[timerEvent.timerSlot := [timerEvent] + old(chains)[timerEvent.timerSlot]]
      ensures forall e :: e in nodes ==> e.rotation == old(e.rotation)
    {
      var pos := timerEvent.timerSlot;
      assert SlotOk(pos);
      Attach(timerEvent, slots[pos], chains[pos]);
      slots[pos] := timerEvent;
      chains := chains[pos := [timerEvent] + chains[pos]];
      nodes := nodes + {timerEvent};
      forall s | 0 <= s < slotsNum
        ensures SlotOk(s)
      {
        assert old(SlotOk(s));
        forall i | s != pos && 0 <= i < |chains[s]|
          ensures Linked(chains[s], i, s)
        {
          assert old(Linked(chains[s], i, s));
        }
      }
      forall e | e in nodes
        ensures NodeOk(e)
      {
        assert e != timerEvent ==> old(NodeOk(e));
      }
    }

    /** Takes the k-th event out of its chain and deletes it; a cancel and a tick do so alike. */
    method Unlink(e: TimerEvent, ghost k: nat) returns (following: TimerEvent?)
      requires Valid() && e in nodes && k < |chains[e.timerSlot]| && chains[e.timerSlot][k] == e
      modifies this`chains, this`nodes, this`freed, slots, nodes
      ensures Valid() && nodes == old(nodes) - {e} && freed == old(freed) + {e}
      ensures forall x :: x in nodes ==> x.rotation == old(x.rotation)
      ensures chains == old(chains)[e.timerSlot := Without(old(chains)[e.timerSlot], k)]
      ensures following == At(old(chains)[e.timerSlot], k + 1)
    {
      var slot := e.timerSlot;
      ghost var c := chains[slot];
      assert SlotOk(slot);
      following := Detach(e, e == slots[slot], c, k);
      if e == slots[slot] {
        slots[slot] := following;
      }
      nodes, freed := nodes - {e}, freed + {e};
      chains := chains[slot := Without(c, k)];
      forall s | 0 <= s < slotsNum && s != slot
        ensures SlotOk(s)
      {
        assert old(SlotOk(s));
        forall i | 0 <= i < |chains[s]|
          ensures Linked(chains[s], i, s)
        {
          assert old(Linked(chains[s], i, s));
        }
      }
      forall x | x in old(nodes)
        ensures 0 <= x.timerSlot < slotsNum && x in old(chains)[x.timerSlot]
      {
        assert old(NodeOk(x));
      }
      AfterUnlink(c, slot, k, old(nodes));
    }

    lemma AfterUnlink(c: seq<TimerEvent>, slot: int, k: nat, was: set<TimerEvent>)
      requires WheelSize(slotsNum) && 0 <= currentSlotPos < slotsNum && slots.Length == slotsNum && |chains| == slotsNum
      requires 0 <= slot < slotsNum && k < |c| && Distinct(c) && chains[slot] == Without(c, k)
      requires nodes == was - {c[k]} && nodes !! freed
      requires forall i :: 0 <= i < |c| ==> c[i] in was && c[i].timerSlot == slot
      requires forall x :: x in was ==>
        0 <= x.timerSlot < slotsNum && x in (if x.timerSlot == slot then c else chains[x.timerSlot])
      requires forall s :: 0 <= s < slotsNum && s != slot ==> SlotOk(s)
      requires Chained(chains[slot], slot) && slots[slot] == At(chains[slot], 0)
      ensures Valid()
    {
    }

    method Cancel(timer: TimerEvent?)
      requires Valid() && (timer != null ==> timer in nodes)
      modifies this`chains, this`nodes, this`freed, slots, nodes
      ensures Valid() && nodes == old(nodes) - Given(timer) && freed == old(freed) + Given(timer)
      ensures Remaining() == if timer == null then old(Remaining()) else Step(old(Remaining()), Op.Cancel(timer))
    {
      if timer == null {
        return;
      }
      assert NodeOk(timer);
      RemainingChanges(RotationOf(), timer, 0, currentSlotPos, slotsNum);
      ghost var k :| 0 <= k < |chains[timer.timerSlot]| && chains[timer.timerSlot][k] == timer;
      var _ := Unlink(timer, k);
      assert RotationOf() == old(RotationOf()) - {timer};
    }

    /** Gives an event one whole turn less. */
    method TurnOnce(e: TimerEvent)
      requires Valid() && e in nodes
      modifies e`rotation
      ensures Valid() && e.rotation == old(e.rotation) - 1
    {
      e.rotation := e.rotation - 1;
      forall s | 0 <= s < slotsNum
        ensures SlotOk(s)
      {
        assert old(SlotOk(s));
        forall i | 0 <= i < |chains[s]|
          ensures Linked(chains[s], i, s)
        {
          assert old(Linked(chains[s], i, s));
        }
      }
    }

    /** One step of the traversal, at the k-th event of the slot under the cursor. */
    method Visit(e: TimerEvent, ghost k: nat) returns (runs: bool, following: TimerEvent?)
      requires Valid() && k < |chains[currentSlotPos]| && chains[currentSlotPos][k] == e
      modifies this`chains, this`nodes, this`freed, slots, nodes
      ensures Valid() && Now() == Visited(old(Now()), currentSlotPos, k)
      ensures runs == !Turns(e, old(RotationOf())) && following == At(old(chains)[currentSlotPos], k + 1)
    {
      assert SlotOk(currentSlotPos) && Linked(chains[currentSlotPos], k, currentSlotPos);
      if e.rotation > 0 {
        TurnOnce(e);
        return false, e.next;
      } else {
        following := Unlink(e, k);
        return true, following;
      }
    }

    lemma CurrentSlot()
      requires Valid()
      ensures CursorSlotOk(Now(), currentSlotPos, slotsNum) && slots[currentSlotPos] == At(chains[currentSlotPos], 0)
    {
      assert SlotOk(currentSlotPos);
      forall e | e in nodes
        ensures 0 <= e.timerSlot < slotsNum && (e.timerSlot == currentSlotPos ==> e in chains[currentSlotPos])
      {
        assert NodeOk(e);
      }
    }

    method VisitNext(e: TimerEvent, ghost was: Snapshot, ghost i: nat, fired: seq<TimerEvent>)
      returns (fired': seq<TimerEvent>, following: TimerEvent?)
      requires Valid() && currentSlotPos < |was.chains| && Traversed(was, currentSlotPos, i, fired, Now())
      requires Distinct(was.chains[currentSlotPos]) && At(was.chains[currentSlotPos], i) == e && e in was.rotations
      modifies this`chains, this`nodes, this`freed, slots, nodes
      ensures Valid() && Traversed(was, currentSlotPos, i + 1, fired', Now())
      ensures following == At(was.chains[currentSlotPos], i + 1)
    {
      TraversedNext(was, currentSlotPos, i, fired, Now());
      var runs, next := Visit(e, |Surviving(was.chains[currentSlotPos][..i], was.rotations)|);
      fired' := if runs then fired + [e] else fired;
      following := next;
    }

    /** The traversal of the slot under the cursor, unlinking while it goes. */
    method TurnSlot(ghost was: Snapshot) returns (fired: seq<TimerEvent>)
      requires Valid() && currentSlotPos < |was.chains| && Traversed(was, currentSlotPos, 0, [], Now())
      requires CursorSlotOk(was, currentSlotPos, slotsNum) && slots[currentSlotPos] == At(was.chains[currentSlotPos], 0)
      modifies this`chains, this`nodes, this`freed, slots, nodes
      ensures Valid() && Traversed(was, currentSlotPos, |was.chains[currentSlotPos]|, fired, Now())
    {
      ghost var i := 0;
      fired := [];
      var timerEvent := slots[currentSlotPos];
      while timerEvent != null
        invariant Valid() && nodes <= old(nodes) && i <= |was.chains[currentSlotPos]|
        invariant Traversed(was, currentSlotPos, i, fired, Now()) && timerEvent == At(was.chains[currentSlotPos], i)
        decreases |was.chains[currentSlotPos]| - i
      {
        fired, timerEvent := VisitNext(timerEvent, was, i, fired);
        i := i + 1;
      }
    }

    method Traverse() returns (fired: seq<TimerEvent>)
      requires Valid()
      modifies this`chains, this`nodes, this`freed, slots, nodes
      ensures Valid() && Now() == TraversalOf(old(Now()), currentSlotPos)
      ensures fired == old(Expiring(chains[currentSlotPos], RotationOf()))
    {
      CurrentSlot();
      TraversedStarts(Now(), currentSlotPos);
      fired := TurnSlot(Now());
      TraversedEnds(old(Now()), currentSlotPos, fired, Now());
    }

    /** The wheel after a traversal and a move of the cursor, in the simple view. */
    lemma TickedView(was: Snapshot, cursor: int)
      requires Valid() && CursorSlotOk(was, cursor, slotsNum)
      requires Now() == TraversalOf(was, cursor) && currentSlotPos == Advance(cursor, slotsNum)
      ensures Remaining() == Step(RemainingOf(was.rotations, cursor, slotsNum), Op.Tick)
      ensures Members(Expiring(was.chains[cursor], was.rotations)) == Due(RemainingOf(was.rotations, cursor, slotsNum))
      ensures Distinct(Expiring(was.chains[cursor], was.rotations))
    {
      TickOfSnapshot(was, cursor, slotsNum);
    }

    method Tick() returns (fired: seq<TimerEvent>)
      requires Valid()
      modifies this`currentSlotPos, this`chains, this`nodes, this`freed, slots, nodes
      ensures Valid() && currentSlotPos == Advance(old(currentSlotPos), slotsNum)
      ensures fired == old(Expiring(chains[currentSlotPos], RotationOf())) && Distinct(fired)
      ensures Now() == TraversalOf(old(Now()), old(currentSlotPos)) && nodes == old(nodes) - Members(fired)
      ensures Members(fired) == Due(old(Remaining()))
      ensures Remaining() == Step(old(Remaining()), Op.Tick)
    {
      ghost var was, cursor := Now(), currentSlotPos;
      CurrentSlot();
      fired := Traverse();
      TickCountsDown(0, 0, currentSlotPos, slotsNum);
      currentSlotPos := Advance(currentSlotPos, slotsNum);
      TickedView(was, cursor);
    }
  }

  // ------------------------------------------------------------------ a wheel at work

  /** What a client asks for; it cancels by the number of its own add. */
  datatype Request = Adding(timeout: int) | Cancelling(i: nat) | Ticking

  /** The events added so far, in order. */
  function Added(ops: seq<Op<TimerEvent>>): seq<TimerEvent> {
    if ops == [] then []
    else
      var ids := Added(ops[..|ops| - 1]);
      if ops[|ops| - 1].Add? then ids + [ops[|ops| - 1].e] else ids
  }

  /** The operation on the map of remaining ticks that a request stands for, after the adds `ids`. */
  predicate Means(request: Request, slotsNum: int, ids: seq<TimerEvent>, op: Op<TimerEvent>) {
    match request
    case Adding(timeout) => op.Add? && op.e !in ids && op.ticks == TicksGranted(timeout, slotsNum)
    case Cancelling(i) => i < |ids| && op == Op.Cancel(ids[i])
    case Ticking => op == Op.Tick
  }

  predicate AllMean(requests: seq<Request>, slotsNum: int, ops: seq<Op<TimerEvent>>)
    requires |requests| == |ops|
  {
    forall k :: 0 <= k < |ops| ==> Means(requests[k], slotsNum, Added(ops[..k]), ops[k])
  }

  /** What each operation runs: a tick exactly the due events, each once, and any other one nothing. */
  predicate RunsDue(m: Ticks<TimerEvent>, op: Op<TimerEvent>, fired: seq<TimerEvent>) {
    if op.Tick? then Members(fired) == Due(m) && Distinct(fired) else fired == []
  }

  predicate AllRunDue(m: Ticks<TimerEvent>, ops: seq<Op<TimerEvent>>, fired: seq<seq<TimerEvent>>)
    requires |fired| == |ops|
  {
    forall k :: 0 <= k < |ops| ==> RunsDue(Run(m, ops[..k]), ops[k], fired[k])
  }

  predicate RequestOk(request: Request, added: nat) {
    match request
    case Adding(timeout) => Timeout(timeout)
    case Cancelling(i) => i < added
    case Ticking => true
  }

  /** One request; an id that has been run or cancelled is dangling, and its client keeps from using it. */
  method Serve(w: TimerWheel, request: Request, ids: seq<TimerEvent>, live: set<TimerEvent>)
    returns (ghost op: Op<TimerEvent>, ids': seq<TimerEvent>, live': set<TimerEvent>, fired: seq<TimerEvent>)
    requires w.Valid() && RequestOk(request, |ids|) && live == Members(ids) * w.nodes
    modifies w, w.slots, w.nodes
    ensures w.Valid() && fresh(w.nodes - old(w.nodes)) && live' == Members(ids') * w.nodes
    ensures Means(request, w.slotsNum, ids, op) && ids' == if op.Add? then ids + [op.e] else ids
    ensures w.Remaining() == Step(old(w.Remaining()), op) && RunsDue(old(w.Remaining()), op, fired)
  {
    hide TimerWheel.Valid;
    ids', live', fired := ids, live, [];
    match request {
      case Adding(timeout) =>
        var e := w.AddTimer(timeout);
        op := Add(e, TicksGranted(timeout, w.slotsNum));
        MembersOfSnoc(ids, e);
        ids', live' := ids + [e], live + {e};
      case Cancelling(i) =>
        op := Op.Cancel(ids[i]);
        if ids[i] in live {
          w.Cancel(ids[i]);
          live' := live - {ids[i]};
        }
      case Ticking =>
        op := Op.Tick;
        fired := w.Tick();
        live' := live - Members(fired);
    }
  }

  /** Any list of requests to a real wheel is a run of the map of remaining ticks. */
  method ServeAll(w: TimerWheel, requests: seq<Request>)
    returns (ghost ops: seq<Op<TimerEvent>>, fired: seq<seq<TimerEvent>>, done: nat)
    requires w.Valid()
    modifies w, w.slots, w.nodes
    ensures w.Valid() && done <= |requests| && |ops| == |fired| == done
    ensures done < |requests| ==> !RequestOk(requests[done], |Added(ops)|)
    ensures AllMean(requests[..done], w.slotsNum, ops)
    ensures w.Remaining() == Run(old(w.Remaining()), ops) && AllRunDue(old(w.Remaining()), ops, fired)
  {
    ghost var m := w.Remaining();
    ops, fired, done := [], [], 0;
    var ids, live := [], {};
    while done < |requests| && RequestOk(requests[done], |ids|)
      invariant w.Valid() && fresh(w.nodes - old(w.nodes)) && done <= |requests| && |ops| == |fired| == done
      invariant ids == Added(ops) && live == Members(ids) * w.nodes
      invariant AllMean(requests[..done], w.slotsNum, ops)
      invariant w.Remaining() == Run(m, ops) && AllRunDue(m, ops, fired)
      decreases |requests| - done
    {
      ghost var op;
      var f;
      op, ids, live, f := Serve(w, requests[done], ids, live);
      Served(requests, done, w.slotsNum, m, ops, op, fired, f);
      ops, fired, done := ops + [op], fired + [f], done + 1;
    }
  }

  lemma Served(requests: seq<Request>, n: nat, slotsNum: int, m: Ticks<TimerEvent>, ops: seq<Op<TimerEvent>>,
               op: Op<TimerEvent>, fired: seq<seq<TimerEvent>>, f: seq<TimerEvent>)
    requires n < |requests| && |ops| == |fired| == n
    requires AllMean(requests[..n], slotsNum, ops) && Means(requests[n], slotsNum, Added(ops), op)
    requires AllRunDue(m, ops, fired) && RunsDue(Run(m, ops), op, f)
    ensures AllMean(requests[..n + 1], slotsNum, ops + [op]) && AllRunDue(m, ops + [op], fired + [f])
    ensures Run(m, ops + [op]) == Step(Run(m, ops), op)
    ensures Added(ops + [op]) == if op.Add? then Added(ops) + [op.e] else Added(ops)
  {
    var all := ops + [op];
    assert all[..n] == ops;
    forall k | 0 <= k < |all|
      ensures Means(requests[k], slotsNum, Added(all[..k]), all[k]) &&
        RunsDue(Run(m, all[..k]), all[k], (fired + [f])[k])
    {
      if k < n {
        assert all[..k] == ops[..k] && requests[..n][k] == requests[k];
        assert Means(requests[..n][k], slotsNum, Added(ops[..k]), ops[k]) &&
          RunsDue(Run(m, ops[..k]), ops[k], fired[k]);
      }
    }
  }

  lemma {:induction false} RunInTwo<E>(m: Ticks<E>, ops: seq<Op<E>>, more: seq<Op<E>>)
    ensures Run(m, ops + more) == Run(Run(m, ops), more)
  {
    if more == [] {
      assert ops + more == ops;
    } else {
      assert (ops + more)[..|ops + more| - 1] == ops + more[..|more| - 1];
      RunInTwo(m, ops, more[..|more| - 1]);
    }
  }

  /** The run up to the j-th operation goes through the k-th. */
  lemma RunThrough<E>(m: Ticks<E>, ops: seq<Op<E>>, k: nat, j: nat)
    requires k < j <= |ops|
    ensures Run(m, ops[..j]) == Run(Step(Run(m, ops[..k]), ops[k]), ops[k + 1..j])
  {
    var first := ops[..k + 1];
    assert first[..|first| - 1] == ops[..k];
    assert ops[..j] == first + ops[k + 1..j];
    RunInTwo(m, first, ops[k + 1..j]);
  }

  /**
   End to end: an event added by the k-th operation, and by none up to the j-th again, is run by that
   one, a tick, exactly if as many ticks lie between the two as it was granted, and no cancel of it.
   */
  lemma AddedIsRunOnce(m: Ticks<TimerEvent>, ops: seq<Op<TimerEvent>>, fired: seq<seq<TimerEvent>>, k: nat, j: nat)
    requires |fired| == |ops| && AllRunDue(m, ops, fired) && k < j < |ops| && ops[j].Tick?
    requires ops[k].Add? && NotAdded(ops[k].e, ops[k + 1..j])
    ensures ops[k].e in fired[j] <==> TicksIn(ops[k + 1..j]) == ops[k].ticks && Op.Cancel(ops[k].e) !in ops[k + 1..j]
  {
    RunThrough(m, ops, k, j);
    RunsExactlyOnce(Step(Run(m, ops[..k]), ops[k]), ops[k].e, ops[k + 1..j]);
    TickRunsDue(m, ops, fired, j, ops[k].e);
  }

  lemma TickRunsDue(m: Ticks<TimerEvent>, ops: seq<Op<TimerEvent>>, fired: seq<seq<TimerEvent>>, j: nat, e: TimerEvent)
    requires |fired| == |ops| && AllRunDue(m, ops, fired) && j < |ops| && ops[j].Tick?
    ensures e in fired[j] <==> e in Due(Run(m, ops[..j]))
  {
    assert RunsDue(Run(m, ops[..j]), ops[j], fired[j]);
    assert e in fired[j] <==> e in Members(fired[j]);
  }

  /** In a list of requests no event is ever added again. */
  lemma {:induction false} AddedBefore(ops: seq<Op<TimerEvent>>, k: nat, i: nat)
    requires k < i <= |ops| && ops[k].Add?
    ensures ops[k].e in Added(ops[..i])
  {
    var before := ops[..i];
    assert before[..|before| - 1] == ops[..i - 1] && before[|before| - 1] == ops[i - 1];
    if k < i - 1 {
      AddedBefore(ops, k, i - 1);
    }
  }

  /** So what a client asks for decides what its wheel runs, and when. */
  lemma ServedExactly(requests: seq<Request>, slotsNum: int, m: Ticks<TimerEvent>, ops: seq<Op<TimerEvent>>,
                      fired: seq<seq<TimerEvent>>, k: nat, j: nat)
    requires |requests| == |ops| == |fired| && AllMean(requests, slotsNum, ops) && AllRunDue(m, ops, fired)
    requires k < j < |ops| && requests[k].Adding? && requests[j].Ticking?
    ensures ops[k].Add? && ops[j].Tick?
    ensures ops[k].e in fired[j] <==>
            TicksIn(ops[k + 1..j]) == TicksGranted(requests[k].timeout, slotsNum) &&
            Op.Cancel(ops[k].e) !in ops[k + 1..j]
  {
    assert Means(requests[k], slotsNum, Added(ops[..k]), ops[k]) &&
      Means(requests[j], slotsNum, Added(ops[..j]), ops[j]);
    hide AllRunDue;
    var between := ops[k + 1..j];
    forall i | 0 <= i < |between|
      ensures between[i].Add? ==> between[i].e != ops[k].e
    {
      AddedBefore(ops, k, k + 1 + i);
      assert Means(requests[k + 1 + i], slotsNum, Added(ops[..k + 1 + i]), ops[k + 1 + i]);
    }
    AddedIsRunOnce(m, ops, fired, k, j);
  }
}
