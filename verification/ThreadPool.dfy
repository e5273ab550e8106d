/**
 The bounded task queue of the thread pool: a monitor with two condition variables and any number of
 threads that post and take, while the pool is running and its capacity fixed.  One step is one
 stretch of code between getting the mutex and giving it up.
 */
module ThreadPools {

  type Thread = nat
  type Task = nat

  datatype State = State(
    maxQueueSize: nat,                 // 0 means unbounded
    queue: seq<Task>,
    waitingTakes: set<Thread>,         // asleep on `notEmpty_`
    wokenTakes: set<Thread>,           // notified, and without the mutex yet
    waitingPosts: Posts,               // the same for `notFull_`, with the task to be pushed
    wokenPosts: Posts,
    posted: seq<Task>,                 // every task pushed, in order
    taken: seq<Task>)                  // every task popped, in order

  predicate Busy(s: State, t: Thread) {
    t in s.waitingTakes || t in s.wokenTakes || t in s.waitingPosts || t in s.wokenPosts
  }

  predicate Full(s: State) {
    s.maxQueueSize > 0 && s.maxQueueSize == |s.queue|
  }

  /** What a thread tests on its way out of a wait on `notFull_`. */
  predicate HasRoom(s: State) {
    |s.queue| < s.maxQueueSize
  }

  /** `notify_one`: exactly one waiting thread if there is any; which one is open. */
  predicate OneOf(notified: set<Thread>, waiting: set<Thread>) {
    notified <= waiting && (if waiting == {} then notified == {} else exists t :: t in waiting && notified == {t})
  }

  function Push(s: State, task: Task, notified: set<Thread>): State {
    s.(queue := s.queue + [task], posted := s.posted + [task],
       waitingTakes := s.waitingTakes - notified, wokenTakes := s.wokenTakes + notified)
  }

  type Posts = map<Thread, Task>

  function Chosen(m: Posts, ts: set<Thread>): Posts {
    map p | p in m && p in ts :: m[p]
  }

  function Pop(s: State, notified: set<Thread>): State
    requires s.queue != [] && notified <= s.waitingPosts.Keys
  {
    var t := s.(queue := s.queue[1..], taken := s.taken + [s.queue[0]]);
    if s.maxQueueSize > 0 then
      t.(waitingPosts := s.waitingPosts - notified, wokenPosts := s.wokenPosts + Chosen(s.waitingPosts, notified))
    else t
  }

  datatype Step =
    | Post(t: Thread, task: Task, notified: set<Thread>)
    | ResumePost(t: Thread, notified: set<Thread>)
    | Take(t: Thread, notified: set<Thread>)
    | ResumeTake(t: Thread, notified: set<Thread>)
    | WakeTake(t: Thread)   // spurious wake-ups
    | WakePost(t: Thread)

  ghost predicate Enabled(s: State, step: Step) {
    match step
    case Post(t, _, notified) => !Busy(s, t) && OneOf(notified, s.waitingTakes)
    case ResumePost(t, notified) => t in s.wokenPosts && OneOf(notified, s.waitingTakes)
    case Take(t, notified) => !Busy(s, t) && OneOf(notified, s.waitingPosts.Keys)
    case ResumeTake(t, notified) => t in s.wokenTakes && OneOf(notified, s.waitingPosts.Keys)
    case WakeTake(t) => t in s.waitingTakes
    case WakePost(t) => t in s.waitingPosts
  }

  function TakeOrWait(s: State, t: Thread, notified: set<Thread>): State
    requires notified <= s.waitingPosts.Keys
  {
    if s.queue == [] then s.(waitingTakes := s.waitingTakes + {t}) else Pop(s, notified)
  }

  ghost function Next(s: State, step: Step): State
    requires Enabled(s, step)
  {
    match step
    case Post(t, task, notified) =>
      if Full(s) then s.(waitingPosts := s.waitingPosts[t := task]) else Push(s, task, notified)
    case ResumePost(t, notified) =>
      var u := s.(wokenPosts := s.wokenPosts - {t});
      if HasRoom(s) then Push(u, s.wokenPosts[t], notified)
      else u.(waitingPosts := s.waitingPosts[t := s.wokenPosts[t]])
    case Take(t, notified) => TakeOrWait(s, t, notified)
    case ResumeTake(t, notified) => TakeOrWait(s.(wokenTakes := s.wokenTakes - {t}), t, notified)
    case WakeTake(t) => s.(waitingTakes := s.waitingTakes - {t}, wokenTakes := s.wokenTakes + {t})
    case WakePost(t) => s.(waitingPosts := s.waitingPosts - {t}, wokenPosts := s.wokenPosts[t := s.waitingPosts[t]])
  }

  // ------------------------------------------------------------------ no lost wake-up

  /** While a thread sleeps un-notified, every task it could take has a notified thread coming for it. */
  predicate TakesCovered(s: State) {
    s.waitingTakes != {} ==> |s.queue| <= |s.wokenTakes|
  }

  /** And every free slot that a sleeping producer could fill has a notified producer coming for it. */
  predicate PostsCovered(s: State) {
    s.waitingPosts.Keys != {} ==> s.maxQueueSize - |s.queue| <= |s.wokenPosts.Keys|
  }

  /** The bound, the order of the tasks, and nobody asleep and notified at once. */
  predicate Shape(s: State) {
    && (if s.maxQueueSize > 0 then |s.queue| <= s.maxQueueSize
        else s.waitingPosts.Keys == {} && s.wokenPosts.Keys == {})
    && s.taken + s.queue == s.posted
    && s.waitingTakes !! s.wokenTakes && s.waitingPosts.Keys !! s.wokenPosts.Keys
  }

  predicate Inv(s: State) {
    Shape(s) && TakesCovered(s) && PostsCovered(s)
  }

  lemma OneMore(notified: set<Thread>, waiting: set<Thread>, woken: set<Thread>)
    requires OneOf(notified, waiting) && waiting !! woken
    ensures waiting - notified !! woken + notified
    ensures |woken + notified| == |woken| + if waiting == {} then 0 else 1
  {
  }

  lemma OneLess(woken: set<Thread>, t: Thread)
    requires t in woken
    ensures |woken - {t}| == |woken| - 1
  {
  }

  /** Pushing needs a free slot that no notified producer is still counted for. */
  lemma PushKeepsInv(s: State, task: Task, notified: set<Thread>)
    requires Shape(s) && !Full(s) && OneOf(notified, s.waitingTakes)
    requires TakesCovered(s) && (s.waitingPosts.Keys != {} ==> s.maxQueueSize - |s.queue| <= |s.wokenPosts.Keys| + 1)
    ensures Inv(Push(s, task, notified))
  {
  }

  /** Dually, popping needs a task that no notified worker is still counted for. */
  lemma PopKeepsInv(s: State, notified: set<Thread>)
    requires Shape(s) && s.queue != [] && OneOf(notified, s.waitingPosts.Keys)
    requires PostsCovered(s) && (s.waitingTakes != {} ==> |s.queue| <= |s.wokenTakes| + 1)
    ensures Inv(Pop(s, notified))
  {
    assert s.taken + [s.queue[0]] + s.queue[1..] == s.taken + s.queue;
    OneMore(notified, s.waitingPosts.Keys, s.wokenPosts.Keys);
    ChosenKeys(s.waitingPosts, s.wokenPosts, notified);
  }

  lemma ChosenKeys(waiting: Posts, woken: Posts, ts: set<Thread>)
    requires ts <= waiting.Keys
    ensures (woken + Chosen(waiting, ts)).Keys == woken.Keys + ts && (waiting - ts).Keys == waiting.Keys - ts
  {
  }

  lemma ResumePostKeepsInv(s: State, t: Thread, notified: set<Thread>)
    requires Inv(s) && t in s.wokenPosts && OneOf(notified, s.waitingTakes)
    ensures Inv(Next(s, ResumePost(t, notified)))
  {
    var u := s.(wokenPosts := s.wokenPosts - {t});
    assert u.wokenPosts.Keys == s.wokenPosts.Keys - {t};
    OneLess(s.wokenPosts.Keys, t);
    if HasRoom(s) {
      PushKeepsInv(u, s.wokenPosts[t], notified);
    }
  }

  lemma ResumeTakeKeepsInv(s: State, t: Thread, notified: set<Thread>)
    requires Inv(s) && t in s.wokenTakes && OneOf(notified, s.waitingPosts.Keys)
    ensures Inv(Next(s, ResumeTake(t, notified)))
  {
    OneLess(s.wokenTakes, t);
    if s.queue != [] {
      PopKeepsInv(s.(wokenTakes := s.wokenTakes - {t}), notified);
    }
  }

  lemma WakePostKeepsInv(s: State, t: Thread)
    requires Inv(s) && t in s.waitingPosts
    ensures Inv(Next(s, WakePost(t)))
  {
  }

  lemma NextKeepsInv(s: State, step: Step)
    requires Inv(s) && Enabled(s, step)
    ensures Inv(Next(s, step))
  {
    match step
    case Post(t, task, notified) =>
      if !Full(s) {
        PushKeepsInv(s, task, notified);
      }
    case ResumePost(t, notified) => ResumePostKeepsInv(s, t, notified);
    case Take(t, notified) =>
      if s.queue != [] {
        PopKeepsInv(s, notified);
      }
    case ResumeTake(t, notified) => ResumeTakeKeepsInv(s, t, notified);
    case WakeTake(t) => OneMore({t}, s.waitingTakes, s.wokenTakes);
    case WakePost(t) => WakePostKeepsInv(s, t);
  }

  // ------------------------------------------------------------------ runs

  ghost predicate Legal(s: State, steps: seq<Step>)
    decreases |steps|
  {
    steps == [] || (Enabled(s, steps[0]) && Legal(Next(s, steps[0]), steps[1..]))
  }

  ghost function Run(s: State, steps: seq<Step>): State
    requires Legal(s, steps)
    decreases |steps|
  {
    if steps == [] then s else Run(Next(s, steps[0]), steps[1..])
  }

  function Initial(maxQueueSize: nat): State {
    State(maxQueueSize, [], {}, {}, map[], map[], [], [])
  }

  /**
   For any threads and any interleaving: no wake-up is lost, the bound holds, and tasks leave in the
   order of the pushes.
   */
  lemma {:induction false} EveryRunKeepsInv(s: State, steps: seq<Step>)
    requires Inv(s) && Legal(s, steps)
    ensures Inv(Run(s, steps)) && Run(s, steps).maxQueueSize == s.maxQueueSize
    decreases |steps|
  {
    if steps != [] {
      NextKeepsInv(s, steps[0]);
      EveryRunKeepsInv(Next(s, steps[0]), steps[1..]);
    }
  }

  /**
   So nobody is stuck: if a task is queued while a worker sleeps, some notified worker can go on, and
   whichever does takes the first task; if a slot is free while a producer sleeps, some notified
   producer can go on, and whichever does pushes its task.
   */
  lemma NobodyStuck(maxQueueSize: nat, steps: seq<Step>)
    requires Legal(Initial(maxQueueSize), steps)
    ensures var s := Run(Initial(maxQueueSize), steps);
      (s.waitingTakes != {} && s.queue != [] ==> s.wokenTakes != {}) &&
      (s.waitingPosts != map[] && HasRoom(s) ==> s.wokenPosts != map[]) &&
      (forall t, n :: s.queue != [] && Enabled(s, ResumeTake(t, n)) ==>
        Next(s, ResumeTake(t, n)).taken == s.taken + [s.queue[0]]) &&
      (forall t, n :: HasRoom(s) && Enabled(s, ResumePost(t, n)) ==>
        Next(s, ResumePost(t, n)).posted == s.posted + [s.wokenPosts[t]])
  {
    EveryRunKeepsInv(Initial(maxQueueSize), steps);
    var s := Run(Initial(maxQueueSize), steps);
    assert s.waitingPosts != map[] ==> s.waitingPosts.Keys != {};
  }

  // ------------------------------------------------------------------ where each thread is

  datatype Place =
    | Away                        // not in the pool's code
    | AwaitingTask
    | CalledForTask               // notified, and on its way back
    | AwaitingRoom(task: Task)
    | CalledForRoom(task: Task)

  function PlaceOf(s: State, t: Thread): Place {
    if t in s.waitingTakes then AwaitingTask
    else if t in s.wokenTakes then CalledForTask
    else if t in s.waitingPosts then AwaitingRoom(s.waitingPosts[t])
    else if t in s.wokenPosts then CalledForRoom(s.wokenPosts[t])
    else Away
  }

  /** A thread is nowhere else. */
  predicate Only(s: State, t: Thread) {
    && (t in s.waitingTakes ==> t !in s.wokenTakes && t !in s.waitingPosts && t !in s.wokenPosts)
    && (t in s.wokenTakes ==> t !in s.waitingPosts && t !in s.wokenPosts)
    && (t in s.waitingPosts ==> t !in s.wokenPosts)
  }

  /** What a step puts into the queue and takes from it. */
  function Enters(s: State, step: Step): seq<Task> {
    match step
    case Post(_, task, _) => if s.maxQueueSize > 0 && |s.queue| == s.maxQueueSize then [] else [task]
    case ResumePost(t, _) => if |s.queue| < s.maxQueueSize && t in s.wokenPosts then [s.wokenPosts[t]] else []
    case _ => []
  }

  function Leaves(s: State, step: Step): seq<Task> {
    if (step.Take? || step.ResumeTake?) && s.queue != [] then [s.queue[0]] else []
  }

  /** Where the thread of a step is after it: it sleeps exactly if it could neither push nor pop. */
  function Ends(s: State, step: Step): Place {
    match step
    case Post(_, task, _) => if Enters(s, step) == [] then AwaitingRoom(task) else Away
    case ResumePost(t, _) => if Enters(s, step) == [] && t in s.wokenPosts then AwaitingRoom(s.wokenPosts[t]) else Away
    case Take(_, _) => if Leaves(s, step) == [] then AwaitingTask else Away
    case ResumeTake(_, _) => if Leaves(s, step) == [] then AwaitingTask else Away
    case WakeTake(_) => CalledForTask
    case WakePost(t) => if t in s.waitingPosts then CalledForRoom(s.waitingPosts[t]) else Away
  }

  /** The threads that a step notifies: of the workers after a push, of the producers after a pop. */
  function Notifies(s: State, step: Step): set<Thread> {
    if Enters(s, step) != [] || (Leaves(s, step) != [] && s.maxQueueSize > 0) then step.notified else {}
  }

  function Called(p: Place): Place {
    match p
    case AwaitingTask => CalledForTask
    case AwaitingRoom(task) => CalledForRoom(task)
    case _ => p
  }

  /** What a step does, task by task. */
  lemma StepMovesTasks(s: State, step: Step)
    requires Enabled(s, step)
    ensures var u := Next(s, step);
      u.queue == s.queue[|Leaves(s, step)|..] + Enters(s, step) &&
      u.posted == s.posted + Enters(s, step) && u.taken == s.taken + Leaves(s, step)
  {
  }

  /**
   And thread by thread: its own thread pushes, pops or sleeps; those it notifies are called back, with
   their tasks; nobody else moves.
   */
  lemma StepMovesThreads(s: State, step: Step, t: Thread)
    requires Only(s, t) && Enabled(s, step)
    ensures var u := Next(s, step);
      Only(u, t) &&
      PlaceOf(u, t) ==
        if t == step.t then Ends(s, step) else if t in Notifies(s, step) then Called(PlaceOf(s, t)) else PlaceOf(s, t)
  {
  }

  /** In every reachable state a thread is in one place. */
  lemma {:induction false} EveryRunKeepsOnly(s: State, steps: seq<Step>, t: Thread)
    requires Only(s, t) && Legal(s, steps)
    ensures Only(Run(s, steps), t)
    decreases |steps|
  {
    if steps != [] {
      StepMovesThreads(s, steps[0], t);
      EveryRunKeepsOnly(Next(s, steps[0]), steps[1..], t);
    }
  }

  /** So a worker takes the first task, or sleeps if there is none, also when it has been called back for nothing. */
  lemma WorkerTakesOrSleeps(s: State, step: Step)
    requires Only(s, step.t) && Enabled(s, step) && (step.Take? || step.ResumeTake?)
    ensures var u := Next(s, step);
      if s.queue == [] then u.taken == s.taken && u.queue == [] && step.t in u.waitingTakes
      else u.taken == s.taken + [s.queue[0]] && u.queue == s.queue[1..] && !Busy(u, step.t)
  {
    StepMovesTasks(s, step);
    StepMovesThreads(s, step, step.t);
  }

  /** And a producer pushes its task, or sleeps with it if there is no room. */
  lemma ProducerPushesOrSleeps(s: State, step: Step, task: Task)
    requires Shape(s) && Only(s, step.t) && Enabled(s, step)
    requires (step.Post? && step.task == task) || (step.ResumePost? && s.wokenPosts[step.t] == task)
    ensures var u := Next(s, step);
      if s.maxQueueSize > 0 && |s.queue| == s.maxQueueSize
        then u.posted == s.posted && u.queue == s.queue && step.t in u.waitingPosts && u.waitingPosts[step.t] == task
      else u.posted == s.posted + [task] && u.queue == s.queue + [task] && !Busy(u, step.t)
  {
    StepMovesTasks(s, step);
    StepMovesThreads(s, step, step.t);
  }

  // ------------------------------------------------------------------ no task lost, none doubled

  /** The producers that carry the task x while they sleep, or are on their way back. */
  function Holders(m: Posts, x: Task): set<Thread> {
    set t | t in m && m[t] == x
  }

  function One(holds: bool): nat { if holds then 1 else 0 }

  lemma HoldersWithout(m: Posts, t: Thread, x: Task)
    requires t in m
    ensures |Holders(m, x)| == |Holders(m - {t}, x)| + One(m[t] == x)
  {
    assert Holders(m, x) == Holders(m - {t}, x) + if m[t] == x then {t} else {};
  }

  lemma HoldersWith(m: Posts, t: Thread, task: Task, x: Task)
    requires t !in m
    ensures |Holders(m[t := task], x)| == |Holders(m, x)| + One(task == x)
  {
    assert Holders(m[t := task], x) == Holders(m, x) + if task == x then {t} else {};
  }

  lemma HoldersMoved(waiting: Posts, woken: Posts, t: Thread, x: Task)
    requires t in waiting && t !in woken
    ensures |Holders(waiting - {t}, x)| + |Holders(woken[t := waiting[t]], x)| ==
      |Holders(waiting, x)| + |Holders(woken, x)|
  {
    HoldersWithout(waiting, t, x);
    HoldersWith(woken, t, waiting[t], x);
  }

  lemma NotifiedMoved(waiting: Posts, woken: Posts, notified: set<Thread>, x: Task)
    requires OneOf(notified, waiting.Keys) && waiting.Keys !! woken.Keys
    ensures |Holders(waiting - notified, x)| + |Holders(woken + Chosen(waiting, notified), x)| ==
      |Holders(waiting, x)| + |Holders(woken, x)|
  {
    if waiting.Keys == {} {
      assert waiting - notified == waiting && woken + Chosen(waiting, notified) == woken;
    } else {
      var t :| t in waiting && notified == {t};
      assert woken + Chosen(waiting, notified) == woken[t := waiting[t]];
      HoldersMoved(waiting, woken, t, x);
    }
  }

  /** How often the task x is in the pool: taken, queued, or still with its producer. */
  function Occurrences(s: State, x: Task): nat {
    multiset(s.taken)[x] + multiset(s.queue)[x] + |Holders(s.waitingPosts, x)| + |Holders(s.wokenPosts, x)|
  }

  function Offer(step: Step): seq<Task> {
    if step.Post? then [step.task] else []
  }

  /** The tasks handed to `post`, in order. */
  function Offered(steps: seq<Step>): seq<Task> {
    if steps == [] then [] else Offer(steps[0]) + Offered(steps[1..])
  }

  lemma PushCounts(s: State, task: Task, notified: set<Thread>, x: Task)
    ensures Occurrences(Push(s, task, notified), x) == Occurrences(s, x) + One(task == x)
  {
  }

  lemma PopCounts(s: State, notified: set<Thread>, x: Task)
    requires Shape(s) && s.queue != [] && OneOf(notified, s.waitingPosts.Keys)
    ensures Occurrences(Pop(s, notified), x) == Occurrences(s, x)
  {
    assert s.queue == [s.queue[0]] + s.queue[1..];
    NotifiedMoved(s.waitingPosts, s.wokenPosts, notified, x);
  }

  lemma ResumePostCounts(s: State, t: Thread, notified: set<Thread>, x: Task)
    requires Shape(s) && t in s.wokenPosts && OneOf(notified, s.waitingTakes)
    ensures Occurrences(Next(s, ResumePost(t, notified)), x) == Occurrences(s, x)
  {
    HoldersWithout(s.wokenPosts, t, x);
    if HasRoom(s) {
      PushCounts(s.(wokenPosts := s.wokenPosts - {t}), s.wokenPosts[t], notified, x);
    } else {
      HoldersWith(s.waitingPosts, t, s.wokenPosts[t], x);
    }
  }

  lemma NextCounts(s: State, step: Step, x: Task)
    requires Shape(s) && Enabled(s, step)
    ensures Occurrences(Next(s, step), x) == Occurrences(s, x) + multiset(Offer(step))[x]
  {
    match step
    case Post(t, task, notified) =>
      if Full(s) {
        HoldersWith(s.waitingPosts, t, task, x);
      } else {
        PushCounts(s, task, notified, x);
      }
    case ResumePost(t, notified) => ResumePostCounts(s, t, notified, x);
    case Take(t, notified) =>
      if s.queue != [] {
        PopCounts(s, notified, x);
      }
    case ResumeTake(t, notified) =>
      if s.queue != [] {
        PopCounts(s.(wokenTakes := s.wokenTakes - {t}), notified, x);
      }
    case WakeTake(_) =>
    case WakePost(t) => HoldersMoved(s.waitingPosts, s.wokenPosts, t, x);
  }

  lemma {:induction false} RunCounts(s: State, steps: seq<Step>, x: Task)
    requires Inv(s) && Legal(s, steps)
    ensures Occurrences(Run(s, steps), x) == Occurrences(s, x) + multiset(Offered(steps))[x]
    decreases |steps|
  {
    if steps != [] {
      NextKeepsInv(s, steps[0]);
      NextCounts(s, steps[0], x);
      RunCounts(Next(s, steps[0]), steps[1..], x);
    }
  }

  /**
   No task is lost or doubled.  However often x was handed to `post`, so often it has been pushed or is
   still with its producer; and what was pushed has been taken or is queued.
   */
  lemma EachTaskOnce(maxQueueSize: nat, steps: seq<Step>, x: Task)
    requires Legal(Initial(maxQueueSize), steps)
    ensures var s := Run(Initial(maxQueueSize), steps);
      s.taken + s.queue == s.posted && multiset(s.posted)[x] == multiset(s.taken)[x] + multiset(s.queue)[x] &&
      multiset(Offered(steps))[x] == multiset(s.posted)[x] + |Holders(s.waitingPosts, x)| + |Holders(s.wokenPosts, x)|
  {
    EveryRunKeepsInv(Initial(maxQueueSize), steps);
    RunCounts(Initial(maxQueueSize), steps, x);
  }

  // ------------------------------------------------------------------ each producer's own order

  function OfferedBy(steps: seq<Step>, t: Thread): seq<Task> {
    if steps == [] then [] else (if steps[0].t == t then Offer(steps[0]) else []) + OfferedBy(steps[1..], t)
  }

  /** What thread t pushes in a run: the task by which one of its steps makes `posted` longer. */
  ghost function PushedBy(s: State, steps: seq<Step>, t: Thread): seq<Task>
    requires Legal(s, steps)
    decreases |steps|
  {
    if steps == [] then []
    else (if steps[0].t == t then NewlyPosted(s, steps[0]) else []) + PushedBy(Next(s, steps[0]), steps[1..], t)
  }

  ghost function NewlyPosted(s: State, step: Step): seq<Task>
    requires Enabled(s, step)
  {
    if |s.posted| <= |Next(s, step).posted| then Next(s, step).posted[|s.posted|..] else []
  }

  function HeldBy(s: State, t: Thread): seq<Task> {
    if t in s.waitingPosts then [s.waitingPosts[t]] else if t in s.wokenPosts then [s.wokenPosts[t]] else []
  }

  lemma NextKeepsOrder(s: State, step: Step, t: Thread)
    requires Shape(s) && Enabled(s, step)
    ensures HeldBy(s, t) + (if step.t == t then Offer(step) else []) ==
            (if step.t == t then NewlyPosted(s, step) else []) + HeldBy(Next(s, step), t)
    ensures s.posted + NewlyPosted(s, step) == Next(s, step).posted
  {
  }

  /** A producer's tasks are pushed in the order of its posts; the one it has not pushed yet is its last. */
  lemma {:induction false} ProducersKeepOrder(s: State, steps: seq<Step>, t: Thread)
    requires Inv(s) && Legal(s, steps)
    ensures HeldBy(s, t) + OfferedBy(steps, t) == PushedBy(s, steps, t) + HeldBy(Run(s, steps), t)
    decreases |steps|
  {
    if steps != [] {
      var u := Next(s, steps[0]);
      NextKeepsInv(s, steps[0]);
      NextKeepsOrder(s, steps[0], t);
      ProducersKeepOrder(u, steps[1..], t);
      var offer := if steps[0].t == t then Offer(steps[0]) else [];
      var push := if steps[0].t == t then NewlyPosted(s, steps[0]) else [];
      Interchange(HeldBy(s, t), offer, OfferedBy(steps[1..], t), push, HeldBy(u, t), PushedBy(u, steps[1..], t),
        HeldBy(Run(s, steps), t));
    }
  }

  lemma Interchange(a: seq<Task>, b: seq<Task>, c: seq<Task>, x: seq<Task>, y: seq<Task>, z: seq<Task>, w: seq<Task>)
    requires a + b == x + y && y + c == z + w
    ensures a + (b + c) == (x + z) + w
  {
    assert a + (b + c) == (a + b) + c;
    assert (x + y) + c == x + (y + c);
    assert x + (z + w) == (x + z) + w;
  }

  // ------------------------------------------------------------------ the pool itself

  class ThreadPool {
    const maxQueueSize: nat
    var running: bool
    var queue: seq<Task>
    // the sleepers of the two condition variables, and those on their way back from them
    var waitingTakes: set<Thread>
    var wokenTakes: set<Thread>
    var waitingPosts: Posts
    var wokenPosts: Posts
    ghost var posted: seq<Task>
    ghost var taken: seq<Task>

    ghost function Now(): State
      reads this
    {
      State(maxQueueSize, queue, waitingTakes, wokenTakes, waitingPosts, wokenPosts, posted, taken)
    }

    constructor (maxQueueSize: nat)
      ensures Now() == Initial(maxQueueSize) && !running
    {
      this.maxQueueSize, running, queue := maxQueueSize, false, [];
      waitingTakes, wokenTakes, waitingPosts, wokenPosts := {}, {}, map[], map[];
      posted, taken := [], [];
    }

    method Start()
      modifies this`running
      ensures running
    {
      running := true;
    }

    /** `notify_one` on `notEmpty_`. */
    method NotifyNotEmpty() returns (ghost notified: set<Thread>)
      modifies this`waitingTakes, this`wokenTakes
      ensures OneOf(notified, old(waitingTakes))
      ensures waitingTakes == old(waitingTakes) - notified && wokenTakes == old(wokenTakes) + notified
    {
      notified := {};
      if waitingTakes != {} {
        var t :| t in waitingTakes;
        notified := {t};
        waitingTakes, wokenTakes := waitingTakes - {t}, wokenTakes + {t};
      }
    }

    /** `notify_one` on `notFull_`. */
    method NotifyNotFull() returns (ghost notified: set<Thread>)
      modifies this`waitingPosts, this`wokenPosts
      ensures OneOf(notified, old(waitingPosts).Keys)
      ensures waitingPosts == old(waitingPosts) - notified
      ensures wokenPosts == old(wokenPosts) + Chosen(old(waitingPosts), notified)
    {
      notified := {};
      if waitingPosts != map[] {
        assert waitingPosts.Keys != {};
        var t :| t in waitingPosts;
        notified := {t};
        wokenPosts := wokenPosts[t := waitingPosts[t]];
        waitingPosts := waitingPosts - {t};
      }
    }

    /** `post` from its beginning to its return or its first sleep; unless the pool runs it throws. */
    method Post(t: Thread, task: Task) returns (thrown: bool, ghost notified: set<Thread>)
      requires !Busy(Now(), t)
      modifies this
      ensures thrown == !old(running) && running == old(running)
      ensures Enabled(old(Now()), Step.Post(t, task, notified))
      ensures Now() == if thrown then old(Now()) else Next(old(Now()), Step.Post(t, task, notified))
      ensures !thrown ==> if maxQueueSize > 0 && |old(queue)| == maxQueueSize
        then queue == old(queue) && t in waitingPosts && waitingPosts[t] == task
        else queue == old(queue) + [task] && t !in waitingPosts
    {
      thrown := !running;
      if thrown {
        notified := AnyWaiting(waitingTakes);
      } else if maxQueueSize > 0 && maxQueueSize == |queue| {
        notified := AnyWaiting(waitingTakes);
        waitingPosts := waitingPosts[t := task];
      } else {
        queue := queue + [task];
        posted := posted + [task];
        notified := NotifyNotEmpty();
      }
    }

    /** `post` from the return of a wait to its own return or its next sleep. */
    method ResumePost(t: Thread) returns (ghost notified: set<Thread>)
      requires running && t in wokenPosts
      modifies this
      ensures running == old(running)
      ensures Enabled(old(Now()), Step.ResumePost(t, notified)) &&
        Now() == Next(old(Now()), Step.ResumePost(t, notified))
    {
      var task := wokenPosts[t];
      wokenPosts := wokenPosts - {t};
      if |queue| < maxQueueSize {
        queue := queue + [task];
        posted := posted + [task];
        notified := NotifyNotEmpty();
      } else {
        notified := AnyWaiting(waitingTakes);
        waitingPosts := waitingPosts[t := task];
      }
    }

    /** `take` from its beginning to its return or its first sleep. */
    method Take(t: Thread) returns (task: seq<Task>, ghost notified: set<Thread>)
      requires running && !Busy(Now(), t)
      modifies this
      ensures running == old(running)
      ensures Enabled(old(Now()), Step.Take(t, notified)) && Now() == Next(old(Now()), Step.Take(t, notified))
      ensures taken == old(taken) + task && task == old(queue[..if queue == [] then 0 else 1])
      ensures task == [] <==> t in waitingTakes
    {
      task, notified := TakeOrSleep(t);
    }

    method ResumeTake(t: Thread) returns (task: seq<Task>, ghost notified: set<Thread>)
      requires running && t in wokenTakes && t !in waitingTakes
      modifies this
      ensures running == old(running)
      ensures Enabled(old(Now()), Step.ResumeTake(t, notified)) &&
        Now() == Next(old(Now()), Step.ResumeTake(t, notified))
      ensures taken == old(taken) + task && task == old(queue[..if queue == [] then 0 else 1])
      ensures task == [] <==> t in waitingTakes
    {
      wokenTakes := wokenTakes - {t};
      task, notified := TakeOrSleep(t);
    }

    method TakeOrSleep(t: Thread) returns (task: seq<Task>, ghost notified: set<Thread>)
      modifies this`queue, this`taken, this`waitingTakes, this`waitingPosts, this`wokenPosts
      ensures OneOf(notified, old(waitingPosts).Keys) && Now() == TakeOrWait(old(Now()), t, notified)
      ensures taken == old(taken) + task && task == old(queue[..if queue == [] then 0 else 1])
      ensures t in waitingTakes <==> task == [] || t in old(waitingTakes)
    {
      task := [];
      if queue == [] {
        notified := AnyWaiting(waitingPosts.Keys);
        waitingTakes := waitingTakes + {t};
      } else {
        task := [queue[0]];
        taken := taken + task;
        queue := queue[1..];
        if maxQueueSize > 0 {
          notified := NotifyNotFull();
        } else {
          notified := AnyWaiting(waitingPosts.Keys);
        }
      }
    }
  }

  /** Some legal choice, where none is made. */
  ghost function AnyWaiting(waiting: set<Thread>): (notified: set<Thread>)
    ensures OneOf(notified, waiting)
  {
    if waiting == {} then {} else var t :| t in waiting; {t}
  }
}
