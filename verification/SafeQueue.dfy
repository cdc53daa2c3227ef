/** The bounded blocking queue of src/comLib/SafeQueue.h as a protocol: any number of threads
    interleave at the granularity of single mutex and semaphore operations. */
module SafeQueue {
  import opened Machine

  /** Where a thread stands.  The number in a name follows the statements of the operation;
      each constructor names the action the thread takes next. */
  datatype PC<T> =
    | Idle
    // Push: everything, including both semaphore waits, happens under the lock
    | PushLock(v: T) | PushCheck(v: T) | PushWaitFull(v: T) | PushPostEmpty(v: T)
    | PushWaitEmpty(v: T) | PushEnqueue(v: T) | PushPostFull
    // BlockPush: reserves a slot first, then locks
    | BlockPushWaitEmpty(v: T) | BlockPushLock(v: T) | BlockPushEnqueue(v: T) | BlockPushPostFull
    // BlockPop and Pop: claim an item first, then lock; only Pop may time out
    | PopWaitFull(timed: bool) | PopLock | PopDequeue | PopPostEmpty
    // Clear: loops under the lock
    | ClearLock | ClearCheck | ClearWaitFull | ClearPostEmpty
    // leaving any critical section
    | Unlock

  /** `enqueued` and `removed` record the history: all items pushed, and all items taken off the
      front, whether delivered to a caller or dropped. */
  datatype State<T> = State(
    cap: nat, queue: seq<T>, empty: nat, full: nat, holder: Option<nat>, threads: seq<PC<T>>,
    enqueued: seq<T>, removed: seq<T>)

  datatype Operation<T> = Push(v: T) | BlockPush(v: T) | BlockPop | Pop | Clear

  datatype Event<T> = Call(op: Operation<T>) | Advance | Timeout

  ghost predicate Init<T>(s: State<T>) {
    && s.cap >= 1 && s.queue == [] && s.empty == s.cap && s.full == 0 && s.holder == None
    && (forall t :: 0 <= t < |s.threads| ==> s.threads[t] == Idle)
    && s.enqueued == [] && s.removed == []
  }

  function Entry<T>(op: Operation<T>): PC<T> {
    match op
    case Push(v) => PushLock(v)
    case BlockPush(v) => BlockPushWaitEmpty(v)
    case BlockPop => PopWaitFull(false)
    case Pop => PopWaitFull(true)
    case Clear => ClearLock
  }

  /** Positions between a lock and the matching unlock. */
  predicate InCritical<T>(pc: PC<T>) {
    match pc
    case Idle | PushLock(_) | BlockPushWaitEmpty(_) | BlockPushLock(_) | PopWaitFull(_) | PopLock | ClearLock => false
    case _ => true
  }

  /** Whether the next action of thread `t` can be taken now.  A `front`/`pop` on an empty queue is
      not something the source guards against, so it does not block here either. */
  predicate CanAdvance<T>(s: State<T>, t: nat)
    requires t < |s.threads|
  {
    match s.threads[t]
    case Idle => false
    case PushLock(_) | BlockPushLock(_) | PopLock | ClearLock => s.holder == None
    case PushWaitEmpty(_) | BlockPushWaitEmpty(_) => s.empty > 0
    case PushWaitFull(_) | PopWaitFull(_) | ClearWaitFull => s.full > 0
    case _ => true
  }

  predicate Enabled<T>(s: State<T>, t: nat, e: Event<T>)
    requires t < |s.threads|
  {
    match e
    case Call(_) => s.threads[t] == Idle
    case Advance => CanAdvance(s, t)
    case Timeout => s.threads[t] == PopWaitFull(true)
  }

  function Goto<T>(s: State<T>, t: nat, pc: PC<T>): State<T>
    requires t < |s.threads|
  {
    s.(threads := s.threads[t := pc])
  }

  /** front() and pop(): the first item leaves; on an empty queue nothing sensible is left. */
  function Dequeue<T>(s: State<T>): State<T> {
    if s.queue == [] then s else s.(queue := s.queue[1..], removed := s.removed + [s.queue[0]])
  }

  function Enqueue<T>(s: State<T>, v: T): State<T> {
    s.(queue := s.queue + [v], enqueued := s.enqueued + [v])
  }

  function Advanced<T>(s: State<T>, t: nat): State<T>
    requires t < |s.threads| && CanAdvance(s, t)
  {
    match s.threads[t]
    case PushLock(v) => Goto(s.(holder := Some(t)), t, PushCheck(v))
    case PushCheck(v) =>
      if |s.queue| >= s.cap then Goto(Dequeue(s), t, PushWaitFull(v)) else Goto(s, t, PushWaitEmpty(v))
    case PushWaitFull(v) => Goto(s.(full := s.full - 1), t, PushPostEmpty(v))
    case PushPostEmpty(v) => Goto(s.(empty := s.empty + 1), t, PushWaitEmpty(v))
    case PushWaitEmpty(v) => Goto(s.(empty := s.empty - 1), t, PushEnqueue(v))
    case PushEnqueue(v) => Goto(Enqueue(s, v), t, PushPostFull)
    case PushPostFull => Goto(s.(full := s.full + 1), t, Unlock)
    case BlockPushWaitEmpty(v) => Goto(s.(empty := s.empty - 1), t, BlockPushLock(v))
    case BlockPushLock(v) => Goto(s.(holder := Some(t)), t, BlockPushEnqueue(v))
    case BlockPushEnqueue(v) => Goto(Enqueue(s, v), t, BlockPushPostFull)
    case BlockPushPostFull => Goto(s.(full := s.full + 1), t, Unlock)
    case PopWaitFull(_) => Goto(s.(full := s.full - 1), t, PopLock)
    case PopLock => Goto(s.(holder := Some(t)), t, PopDequeue)
    case PopDequeue => Goto(Dequeue(s), t, PopPostEmpty)
    case PopPostEmpty => Goto(s.(empty := s.empty + 1), t, Unlock)
    case ClearLock => Goto(s.(holder := Some(t)), t, ClearCheck)
    case ClearCheck => if s.queue == [] then Goto(s, t, Unlock) else Goto(Dequeue(s), t, ClearWaitFull)
    case ClearWaitFull => Goto(s.(full := s.full - 1), t, ClearPostEmpty)
    case ClearPostEmpty => Goto(s.(empty := s.empty + 1), t, ClearCheck)
    case Unlock => Goto(s.(holder := None), t, Idle)
  }

  function Step<T>(s: State<T>, t: nat, e: Event<T>): State<T>
    requires t < |s.threads| && Enabled(s, t, e)
  {
    match e
    case Call(op) => Goto(s, t, Entry(op))
    case Advance => Advanced(s, t)
    case Timeout => Goto(s, t, Idle)
  }

  /** A run: consecutive states related by some enabled event of some thread. */
  ghost predicate Run<T(!new)>(run: seq<State<T>>) {
    |run| > 0 && forall i :: 0 <= i < |run| - 1 ==> Next(run[i], run[i + 1])
  }

  ghost predicate Next<T(!new)>(s: State<T>, s': State<T>) {
    exists t: nat, e: Event<T> :: Steps(s, t, e, s')
  }

  ghost predicate Steps<T(!new)>(s: State<T>, t: nat, e: Event<T>, s': State<T>) {
    t < |s.threads| && Enabled(s, t, e) && s' == Step(s, t, e)
  }

  // ---------------------------------------------------------------- the token invariant

  /** Slots a thread holds: taken from `empty` but not filled, or vacated but not posted. */
  function SlotsHeld<T>(pc: PC<T>): int {
    match pc
    case BlockPushLock(_) | BlockPushEnqueue(_) | PushEnqueue(_) => 1
    case PushWaitFull(_) | PushPostEmpty(_) | PopPostEmpty | ClearWaitFull | ClearPostEmpty => 1
    case _ => 0
  }

  /** Items a thread accounts for: claimed from `full` but not removed, or enqueued but not posted;
      an item removed before its token was claimed counts negatively. */
  function ItemsHeld<T>(pc: PC<T>): int {
    match pc
    case PopLock | PopDequeue | PushPostFull | BlockPushPostFull => 1
    case PushWaitFull(_) | ClearWaitFull => -1
    case _ => 0
  }

  function SlotSum<T>(threads: seq<PC<T>>): int {
    if threads == [] then 0 else SlotSum(threads[..|threads| - 1]) + SlotsHeld(threads[|threads| - 1])
  }

  function ItemSum<T>(threads: seq<PC<T>>): int {
    if threads == [] then 0 else ItemSum(threads[..|threads| - 1]) + ItemsHeld(threads[|threads| - 1])
  }

  lemma {:induction false} SumsUpdate<T>(threads: seq<PC<T>>, t: nat, pc: PC<T>)
    requires t < |threads|
    ensures SlotSum(threads[t := pc]) == SlotSum(threads) - SlotsHeld(threads[t]) + SlotsHeld(pc)
    ensures ItemSum(threads[t := pc]) == ItemSum(threads) - ItemsHeld(threads[t]) + ItemsHeld(pc)
  {
    var n := |threads| - 1;
    if t == n {
      assert threads[t := pc][..n] == threads[..n];
    } else {
      assert threads[t := pc][..n] == threads[..n][t := pc];
      SumsUpdate(threads[..n], t, pc);
    }
  }

  lemma {:induction false} SumsIdle<T>(threads: seq<PC<T>>)
    requires forall t :: 0 <= t < |threads| ==> threads[t] == Idle
    ensures SlotSum(threads) == 0 && ItemSum(threads) == 0
  {
    if threads != [] {
      SumsIdle(threads[..|threads| - 1]);
    }
  }

  lemma {:induction false} SumsLowerBound<T>(threads: seq<PC<T>>, t: nat)
    requires t < |threads|
    requires forall i :: 0 <= i < |threads| && i != t ==> ItemsHeld(threads[i]) >= 0
    ensures SlotSum(threads) >= SlotsHeld(threads[t])
    ensures ItemSum(threads) >= ItemsHeld(threads[t])
  {
    var n := |threads| - 1;
    if t == n {
      SumsNonNegative(threads[..n]);
    } else {
      SumsLowerBound(threads[..n], t);
    }
  }

  lemma {:induction false} SumsNonNegative<T>(threads: seq<PC<T>>)
    requires forall i :: 0 <= i < |threads| ==> ItemsHeld(threads[i]) >= 0
    ensures SlotSum(threads) >= 0 && ItemSum(threads) >= 0
  {
    if threads != [] {
      SumsNonNegative(threads[..|threads| - 1]);
    }
  }

  /** free slots + slots held + length = capacity, and tokens + items held = length. */
  ghost predicate Tokens<T>(s: State<T>) {
    && s.empty + SlotSum(s.threads) + |s.queue| == s.cap
    && s.full + ItemSum(s.threads) == |s.queue|
  }

  /** The holder is the one thread inside a critical section. */
  ghost predicate Mutual<T>(s: State<T>) {
    && (forall t :: 0 <= t < |s.threads| ==> (InCritical(s.threads[t]) <==> s.holder == Some(t)))
    && (s.holder.Some? ==> s.holder.value < |s.threads|)
  }

  ghost predicate Inv<T>(s: State<T>) {
    && s.cap >= 1
    && Tokens(s)
    && Mutual(s)
    && s.removed + s.queue == s.enqueued
  }

  lemma InitInv<T>(s: State<T>)
    requires Init(s)
    ensures Inv(s)
  {
    SumsIdle(s.threads);
  }

  /** Only the lock holder can stand where ItemsHeld is negative. */
  lemma OthersNonNegative<T>(s: State<T>, t: nat)
    requires Mutual(s) && t < |s.threads| && (s.holder == None || s.holder == Some(t))
    ensures SlotSum(s.threads) >= SlotsHeld(s.threads[t])
    ensures ItemSum(s.threads) >= ItemsHeld(s.threads[t])
  {
    SumsLowerBound(s.threads, t);
  }

  /** A thread about to call front() or pop() finds an item. */
  lemma DequeueFindsItem<T>(s: State<T>, t: nat)
    requires Inv(s) && t < |s.threads|
    requires s.threads[t] == PopDequeue || (s.threads[t].PushCheck? && |s.queue| >= s.cap)
    ensures s.queue != []
  {
    OthersNonNegative(s, t);
  }

  /** Every action moves tokens between the semaphores, the queue and the acting thread, and
      creates or destroys none. */
  lemma StepConserves<T>(s: State<T>, t: nat)
    requires t < |s.threads| && CanAdvance(s, t)
    requires s.threads[t] == PopDequeue || (s.threads[t].PushCheck? && |s.queue| >= s.cap) ==> s.queue != []
    ensures var s', pc, pc' := Advanced(s, t), s.threads[t], Advanced(s, t).threads[t];
            && s'.threads == s.threads[t := pc'] && s'.cap == s.cap
            && s'.empty + SlotsHeld(pc') + |s'.queue| == s.empty + SlotsHeld(pc) + |s.queue|
            && s'.full + ItemsHeld(pc') - |s'.queue| == s.full + ItemsHeld(pc) - |s.queue|
  {
  }

  lemma StepTokens<T>(s: State<T>, t: nat)
    requires Inv(s) && t < |s.threads| && CanAdvance(s, t)
    ensures Tokens(Advanced(s, t))
  {
    if s.threads[t] == PopDequeue || (s.threads[t].PushCheck? && |s.queue| >= s.cap) {
      DequeueFindsItem(s, t);
    }
    StepConserves(s, t);
    SumsUpdate(s.threads, t, Advanced(s, t).threads[t]);
  }

  lemma StepMutual<T>(s: State<T>, t: nat)
    requires Mutual(s) && t < |s.threads| && CanAdvance(s, t)
    ensures Mutual(Advanced(s, t))
  {
  }

  lemma StepHistory<T>(s: State<T>, t: nat)
    requires s.removed + s.queue == s.enqueued && t < |s.threads| && CanAdvance(s, t)
    ensures Advanced(s, t).removed + Advanced(s, t).queue == Advanced(s, t).enqueued
    ensures Advanced(s, t).cap == s.cap
  {
  }

  lemma AdvanceInv<T>(s: State<T>, t: nat)
    requires Inv(s) && t < |s.threads| && CanAdvance(s, t)
    ensures Inv(Advanced(s, t))
  {
    StepTokens(s, t);
    StepMutual(s, t);
    StepHistory(s, t);
  }

  /** A thread may go anywhere outside the critical sections that leaves what it holds as it is. */
  lemma GotoInv<T>(s: State<T>, t: nat, pc: PC<T>)
    requires Inv(s) && t < |s.threads| && !InCritical(s.threads[t]) && !InCritical(pc)
    requires SlotsHeld(pc) == SlotsHeld(s.threads[t]) && ItemsHeld(pc) == ItemsHeld(s.threads[t])
    ensures Inv(Goto(s, t, pc))
  {
    SumsUpdate(s.threads, t, pc);
  }

  lemma StepInv<T>(s: State<T>, t: nat, e: Event<T>)
    requires Inv(s) && t < |s.threads| && Enabled(s, t, e)
    ensures Inv(Step(s, t, e))
  {
    match e
    case Call(op) => GotoInv(s, t, Entry(op));
    case Advance => AdvanceInv(s, t);
    case Timeout => GotoInv(s, t, Idle);
  }

  // ---------------------------------------------------------------- safety of every run

  ghost predicate Execution<T(!new)>(run: seq<State<T>>) {
    Run(run) && Init(run[0])
  }

  lemma {:induction false} RunInv<T(!new)>(run: seq<State<T>>, i: nat)
    requires Run(run) && Inv(run[0]) && i < |run|
    ensures Inv(run[i])
  {
    if i > 0 {
      RunInv(run, i - 1);
      assert Next(run[i - 1], run[i - 1 + 1]);
      var t: nat, e: Event<T> :| Steps(run[i - 1], t, e, run[i]);
      StepInv(run[i - 1], t, e);
    }
  }

  lemma {:induction false} HeldBalance<T>(threads: seq<PC<T>>)
    ensures SlotSum(threads) >= 0 && SlotSum(threads) + ItemSum(threads) >= 0
  {
    if threads != [] {
      HeldBalance(threads[..|threads| - 1]);
    }
  }

  /** The queue never outgrows its capacity, neither semaphore is ever posted past its maximum
      count, items leave in the order they came, and no front()/pop() meets an empty queue. */
  lemma ExecutionSafe<T(!new)>(run: seq<State<T>>, i: nat)
    requires Execution(run) && i < |run|
    ensures Inv(run[i])
    ensures |run[i].queue| <= run[i].cap && run[i].empty <= run[i].cap && run[i].full <= run[i].cap
    ensures run[i].removed + run[i].queue == run[i].enqueued
    ensures forall t :: 0 <= t < |run[i].threads| && run[i].threads[t] == PopDequeue ==> run[i].queue != []
  {
    InitInv(run[0]);
    RunInv(run, i);
    HeldBalance(run[i].threads);
    forall t | 0 <= t < |run[i].threads| && run[i].threads[t] == PopDequeue ensures run[i].queue != [] {
      DequeueFindsItem(run[i], t);
    }
  }

  // ---------------------------------------------------------------- what the operations do

  /** What an operation does to the queue and its history, from where it takes the lock to where it has
      given it back.  Push drops the front of a full queue; a pop needs an item. */
  ghost predicate Effect<T>(op: Operation<T>, before: State<T>, after: State<T>) {
    var q := before.queue;
    match op
    case Push(v) =>
      var dropped := if |q| >= before.cap then q[..Min(1, |q|)] else [];
      after.queue == q[|dropped|..] + [v] && after.removed == before.removed + dropped && after.enqueued == before.enqueued + [v]
    case BlockPush(v) =>
      after.queue == q + [v] && after.removed == before.removed && after.enqueued == before.enqueued + [v]
    case BlockPop | Pop =>
      q != [] && after.queue == q[1..] && after.removed == before.removed + [q[0]] && after.enqueued == before.enqueued
    case Clear =>
      after.queue == [] && after.removed == before.removed + q && after.enqueued == before.enqueued
  }

  /** The thread is about to take the lock for the operation. */
  predicate AtLock<T(==)>(pc: PC<T>, op: Operation<T>) {
    match op
    case Push(v) => pc == PushLock(v)
    case BlockPush(v) => pc == BlockPushLock(v)
    case BlockPop | Pop => pc == PopLock
    case Clear => pc == ClearLock
  }

  /** How far the holder of the lock has come. */
  ghost predicate Underway<T>(op: Operation<T>, pc: PC<T>, before: State<T>, now: State<T>) {
    var q := before.queue;
    var same := now.queue == q && now.removed == before.removed && now.enqueued == before.enqueued;
    var dropped := |q| >= before.cap && q != [] && now.queue == q[1..] && now.removed == before.removed + [q[0]]
                   && now.enqueued == before.enqueued;
    match op
    case Push(v) =>
      || (pc == PushCheck(v) && same)
      || ((pc == PushWaitFull(v) || pc == PushPostEmpty(v)) && dropped)
      || ((pc == PushWaitEmpty(v) || pc == PushEnqueue(v)) && if |q| >= before.cap then dropped else same)
      || ((pc == PushPostFull || pc == Unlock) && Effect(op, before, now))
    case BlockPush(v) =>
      (pc == BlockPushEnqueue(v) && same) || ((pc == BlockPushPostFull || pc == Unlock) && Effect(op, before, now))
    case BlockPop | Pop =>
      (pc == PopDequeue && same) || ((pc == PopPostEmpty || pc == Unlock) && Effect(op, before, now))
    case Clear =>
      && now.enqueued == before.enqueued && |now.queue| <= |q| && now.queue == q[|q| - |now.queue|..]
      && now.removed == before.removed + q[..|q| - |now.queue|]
      && (pc == ClearCheck || pc == ClearWaitFull || pc == ClearPostEmpty || (pc == Unlock && now.queue == []))
  }

  lemma Locks<T>(s: State<T>, t: nat, op: Operation<T>)
    requires t < |s.threads| && CanAdvance(s, t) && AtLock(s.threads[t], op)
    ensures Underway(op, Advanced(s, t).threads[t], s, Advanced(s, t))
  {
    assert s.queue[..0] == [] && s.queue[0..] == s.queue;
  }

  lemma ClearUnderway<T>(s: State<T>, t: nat, before: State<T>)
    requires Inv(s) && t < |s.threads| && s.holder == Some(t) && CanAdvance(s, t) && s.threads[t] != Unlock
    requires Underway(Clear, s.threads[t], before, s)
    ensures Underway(Clear, Advanced(s, t).threads[t], before, Advanced(s, t))
  {
    var q, n := before.queue, |before.queue| - |s.queue|;
    if s.threads[t] == ClearCheck && s.queue != [] {
      assert q[..n + 1] == q[..n] + [q[n]];
      assert s.queue[1..] == q[n + 1..];
    }
  }

  lemma HolderUnderway<T>(s: State<T>, t: nat, op: Operation<T>, before: State<T>)
    requires Inv(s) && t < |s.threads| && s.holder == Some(t) && CanAdvance(s, t) && s.threads[t] != Unlock
    requires Underway(op, s.threads[t], before, s) && before.cap == s.cap
    ensures Underway(op, Advanced(s, t).threads[t], before, Advanced(s, t))
  {
    if op.Clear? {
      ClearUnderway(s, t, before);
    } else if s.threads[t] == PopDequeue {
      DequeueFindsItem(s, t);
    } else {
      assert before.queue[0..] == before.queue && before.removed + [] == before.removed;
    }
  }

  /** While a thread holds the lock the others change neither the queue nor its history. */
  lemma OthersWait<T>(s: State<T>, t: nat, u: nat, e: Event<T>)
    requires Inv(s) && t < |s.threads| && s.holder == Some(t) && u < |s.threads| && u != t && Enabled(s, u, e)
    ensures var s' := Step(s, u, e);
            && s'.queue == s.queue && s'.removed == s.removed && s'.enqueued == s.enqueued
            && s'.threads[t] == s.threads[t] && s'.holder == s.holder
  {
  }

  /** What every step keeps holds from its first state on. */
  lemma {:induction false} KeptBySteps<S(!new)>(run: seq<S>, i: nat, k: nat, step: (S, S) -> bool, keeps: S -> bool)
    requires i < k < |run| && keeps(run[i + 1])
    requires forall m :: i < m < k ==> step(run[m], run[m + 1])
    requires forall s: S, s': S :: step(s, s') && keeps(s) ==> keeps(s')
    ensures keeps(run[k])
  {
    if i + 1 < k {
      KeptBySteps(run, i, k - 1, step, keeps);
      assert step(run[k - 1], run[k - 1 + 1]);
    }
  }

  /** From the lock on, whatever other threads do. */
  lemma UnderwayInRun<T(!new)>(run: seq<State<T>>, i: nat, k: nat, t: nat, op: Operation<T>)
    requires Run(run) && Inv(run[0]) && i < k < |run| && t < |run[i].threads| && AtLock(run[i].threads[t], op)
    requires run[i].holder == None && forall m :: i < m <= k ==> run[m].holder == Some(t)
    ensures t < |run[k].threads| && Underway(op, run[k].threads[t], run[i], run[k])
  {
    var before := run[i];
    var keeps := (s: State<T>) => t < |s.threads| && Underway(op, s.threads[t], before, s) && s.cap == before.cap;
    var step := (s: State<T>, s': State<T>) => Inv(s) && Next(s, s') && s.holder == Some(t) == s'.holder;
    RunInv(run, i);
    assert Next(run[i], run[i + 1]);
    LockTaken(before, run[i + 1], t, op);
    forall s: State<T>, s': State<T> | step(s, s') && keeps(s)
      ensures keeps(s')
    {
      UnderwayNext(before, s, s', t, op);
    }
    forall m | i < m < k
      ensures step(run[m], run[m + 1])
    {
      RunInv(run, m);
    }
    KeptBySteps(run, i, k, step, keeps);
  }

  lemma LockTaken<T(!new)>(s: State<T>, s': State<T>, t: nat, op: Operation<T>)
    requires Inv(s) && s.holder == None && t < |s.threads| && AtLock(s.threads[t], op)
    requires Next(s, s') && s'.holder == Some(t)
    ensures t < |s'.threads| && Underway(op, s'.threads[t], s, s') && s'.cap == s.cap
  {
    var u: nat, e: Event<T> :| Steps(s, u, e, s');
    assert u == t && e == Advance;
    Locks(s, t, op);
  }

  lemma UnderwayNext<T(!new)>(before: State<T>, s: State<T>, s': State<T>, t: nat, op: Operation<T>)
    requires Inv(s) && t < |s.threads| && s.holder == Some(t) && Next(s, s') && s'.holder == Some(t)
    requires Underway(op, s.threads[t], before, s) && before.cap == s.cap
    ensures t < |s'.threads| && Underway(op, s'.threads[t], before, s') && s'.cap == before.cap
  {
    var u: nat, e: Event<T> :| Steps(s, u, e, s');
    UnderwayStep(before, s, t, op, u, e);
  }

  lemma LockGivenBack<T(!new)>(before: State<T>, s: State<T>, s': State<T>, t: nat, op: Operation<T>)
    requires Inv(s) && t < |s.threads| && s.holder == Some(t) && Next(s, s') && s'.holder == None
    requires Underway(op, s.threads[t], before, s)
    ensures Effect(op, before, s')
  {
    var u: nat, e: Event<T> :| Steps(s, u, e, s');
    assert u == t && s.threads[t] == Unlock;
    assert s'.queue == s.queue && s'.removed == s.removed && s'.enqueued == s.enqueued;
    if op.Clear? {
      assert before.queue[..|before.queue|] == before.queue;
    }
  }

  lemma UnderwayStep<T>(before: State<T>, s: State<T>, t: nat, op: Operation<T>, u: nat, e: Event<T>)
    requires Inv(s) && t < |s.threads| && u < |s.threads| && Enabled(s, u, e) && s.holder == Some(t)
    requires Underway(op, s.threads[t], before, s) && before.cap == s.cap && Step(s, u, e).holder == Some(t)
    ensures var s' := Step(s, u, e);
            t < |s'.threads| && Underway(op, s'.threads[t], before, s') && s'.cap == before.cap
  {
    if u == t {
      assert e == Advance && s.threads[t] != Unlock;
      HolderUnderway(s, t, op, before);
    } else {
      OthersWait(s, t, u, e);
      SameUnderway(op, s.threads[t], before, s, Step(s, u, e));
    }
  }

  lemma SameUnderway<T>(op: Operation<T>, pc: PC<T>, before: State<T>, s: State<T>, s': State<T>)
    requires Underway(op, pc, before, s)
    requires s'.queue == s.queue && s'.removed == s.removed && s'.enqueued == s.enqueued
    ensures Underway(op, pc, before, s')
  {
  }

  /** In every execution, with any other threads: from the moment a thread takes the lock for an operation
      to the moment it gives it back, the queue undergoes exactly the effect of that operation. */
  lemma OperationsTakeEffect<T(!new)>(run: seq<State<T>>, i: nat, j: nat, t: nat, op: Operation<T>)
    requires Execution(run) && i + 1 < j < |run| && t < |run[i].threads| && AtLock(run[i].threads[t], op)
    requires run[i].holder == None && run[j].holder == None && forall m :: i < m < j ==> run[m].holder == Some(t)
    ensures Effect(op, run[i], run[j])
  {
    InitInv(run[0]);
    UnderwayInRun(run, i, j - 1, t, op);
    LastStep(run, j);
    LockGivenBack(run[i], run[j - 1], run[j], t, op);
  }

  lemma LastStep<T(!new)>(run: seq<State<T>>, j: nat)
    requires Run(run) && Inv(run[0]) && 0 < j < |run|
    ensures Inv(run[j - 1]) && Next(run[j - 1], run[j])
  {
    RunInv(run, j - 1);
    assert Next(run[j - 1], run[j - 1 + 1]);
  }

  /** A thread leaves an operation by giving back the lock, but for one case: the wait of Pop, and of
      Pop alone, can time out, and then nothing has changed. */
  lemma LeavesExactly<T(!new)>(s: State<T>, t: nat, e: Event<T>, s': State<T>)
    requires Inv(s) && Steps(s, t, e, s') && s.threads[t] != Idle && s'.threads[t] == Idle
    ensures (s.threads[t] == Unlock && s.holder == Some(t) && s'.holder == None)
            || (s.threads[t] == Entry<T>(Pop) && e == Timeout && s' == s.(threads := s.threads[t := Idle]))
    ensures Entry<T>(Pop) != Entry<T>(BlockPop)
  {
  }

  /** `n` actions of thread `t`, with no other in between, lead from `s` to `u`. */
  ghost predicate Alone<T>(s: State<T>, t: nat, u: State<T>, n: nat)
    decreases n
  {
    if n == 0 then s == u else t < |s.threads| && CanAdvance(s, t) && Alone(Advanced(s, t), t, u, n - 1)
  }

  ghost predicate Quiet<T>(s: State<T>) {
    Inv(s) && forall t :: 0 <= t < |s.threads| ==> s.threads[t] == Idle
  }

  lemma Before<T>(s: State<T>, t: nat, u: State<T>, n: nat)
    requires t < |s.threads| && CanAdvance(s, t) && Alone(Advanced(s, t), t, u, n)
    ensures Alone(s, t, u, n + 1)
  {
  }

  lemma QuietTokens<T>(s: State<T>)
    requires Quiet(s)
    ensures s.holder == None && s.full == |s.queue| && s.empty == s.cap - |s.queue| && |s.queue| <= s.cap
  {
    SumsIdle(s.threads);
  }

  /** The end of both pushes: enqueue, post, unlock. */
  lemma PushEnds<T>(s: State<T>, t: nat, v: T) returns (u: State<T>)
    requires t < |s.threads| && (s.threads[t] == PushEnqueue(v) || s.threads[t] == BlockPushEnqueue(v))
    ensures Alone(s, t, u, 3)
    ensures u == s.(queue := s.queue + [v], enqueued := s.enqueued + [v], full := s.full + 1, holder := None,
                    threads := s.threads[t := Idle])
  {
    var a := Advanced(s, t);
    var b := Advanced(a, t);
    u := Advanced(b, t);
    assert Alone(u, t, u, 0);
    Before(b, t, u, 0);
    Before(a, t, u, 1);
    Before(s, t, u, 2);
    assert u.threads == s.threads[t := Idle];
  }

  /** From the check of a full queue to the place of the new item. */
  lemma FrontDropped<T>(s: State<T>, t: nat, v: T) returns (x: State<T>)
    requires t < |s.threads| && s.threads[t] == PushCheck(v) && |s.queue| >= s.cap && s.queue != []
    requires s.full > 0
    ensures x == s.(queue := s.queue[1..], removed := s.removed + [s.queue[0]], full := s.full - 1,
                    threads := s.threads[t := PushEnqueue(v)])
    ensures forall u: State<T>, n: nat :: Alone(x, t, u, n) ==> Alone(s, t, u, n + 4)
  {
    var a := Advanced(s, t);
    var b := Advanced(a, t);
    var c := Advanced(b, t);
    x := Advanced(c, t);
    assert x.threads == s.threads[t := PushEnqueue(v)];
    forall u: State<T>, n: nat | Alone(x, t, u, n) ensures Alone(s, t, u, n + 4) {
      Before(c, t, u, n);
      Before(b, t, u, n + 1);
      Before(a, t, u, n + 2);
      Before(s, t, u, n + 3);
    }
  }

  /** Without other threads Push always comes to its end. */
  lemma PushAlone<T>(s: State<T>, t: nat, v: T) returns (u: State<T>, n: nat)
    requires Quiet(s) && t < |s.threads|
    ensures Alone(Step(s, t, Call(Push(v))), t, u, n) && u.threads == s.threads
    ensures u.queue == (if |s.queue| == s.cap then s.queue[1..] else s.queue) + [v]
    ensures u.removed == s.removed + (if |s.queue| == s.cap then [s.queue[0]] else []) && u.enqueued == s.enqueued + [v]
  {
    QuietTokens(s);
    var a := Step(s, t, Call(Push(v)));
    var b := Advanced(a, t);
    if |s.queue| == s.cap {
      var x := FrontDropped(b, t, v);
      u := PushEnds(x, t, v);
      Before(a, t, u, 7);
      n := 8;
    } else {
      var c := Advanced(b, t);
      var x := Advanced(c, t);
      u := PushEnds(x, t, v);
      Before(c, t, u, 3);
      Before(b, t, u, 4);
      Before(a, t, u, 5);
      n := 6;
    }
    assert u.threads == s.threads;
  }

  /** BlockPush, with room in the queue. */
  lemma BlockPushAlone<T>(s: State<T>, t: nat, v: T) returns (u: State<T>, n: nat)
    requires Quiet(s) && t < |s.threads| && |s.queue| < s.cap
    ensures Alone(Step(s, t, Call(BlockPush(v))), t, u, n) && u.threads == s.threads
    ensures u.queue == s.queue + [v] && u.removed == s.removed && u.enqueued == s.enqueued + [v]
  {
    QuietTokens(s);
    var a := Step(s, t, Call(BlockPush(v)));
    var b := Advanced(a, t);
    var c := Advanced(b, t);
    u := PushEnds(c, t, v);
    Before(b, t, u, 3);
    Before(a, t, u, 4);
    n := 5;
    assert u.threads == s.threads;
  }

  /** Without room BlockPush waits, outside the lock. */
  lemma BlockPushOnFullWaits<T>(s: State<T>, t: nat, v: T)
    requires Quiet(s) && t < |s.threads| && |s.queue| == s.cap
    ensures var a := Step(s, t, Call(BlockPush(v))); !CanAdvance(a, t) && !Enabled(a, t, Timeout) && a.holder == None
  {
    QuietTokens(s);
  }

  lemma PopEnds<T>(s: State<T>, t: nat) returns (u: State<T>)
    requires t < |s.threads| && s.threads[t] == PopDequeue && s.queue != []
    ensures Alone(s, t, u, 3)
    ensures u == s.(queue := s.queue[1..], removed := s.removed + [s.queue[0]], empty := s.empty + 1, holder := None,
                    threads := s.threads[t := Idle])
  {
    var a := Advanced(s, t);
    var b := Advanced(a, t);
    u := Advanced(b, t);
    assert Alone(u, t, u, 0);
    Before(b, t, u, 0);
    Before(a, t, u, 1);
    Before(s, t, u, 2);
    assert u.threads == s.threads[t := Idle];
  }

  /** Both pops, with an item in the queue: the front leaves. */
  lemma PopAlone<T>(s: State<T>, t: nat, op: Operation<T>) returns (u: State<T>, n: nat)
    requires Quiet(s) && t < |s.threads| && s.queue != [] && (op == BlockPop || op == Pop)
    ensures Alone(Step(s, t, Call(op)), t, u, n) && u.threads == s.threads
    ensures u.queue == s.queue[1..] && u.removed == s.removed + [s.queue[0]] && u.enqueued == s.enqueued
  {
    QuietTokens(s);
    var a := Step(s, t, Call(op));
    var b := Advanced(a, t);
    var c := Advanced(b, t);
    u := PopEnds(c, t);
    Before(b, t, u, 3);
    Before(a, t, u, 4);
    n := 5;
    assert u.threads == s.threads;
  }

  /** Without an item a pop waits; only that of Pop can end, without one. */
  lemma PopOnEmptyWaits<T>(s: State<T>, t: nat, op: Operation<T>)
    requires Quiet(s) && t < |s.threads| && s.queue == [] && (op == BlockPop || op == Pop)
    ensures var a := Step(s, t, Call(op)); !CanAdvance(a, t) && (Enabled(a, t, Timeout) <==> op == Pop)
  {
    QuietTokens(s);
  }

  lemma ClearTurn<T>(s: State<T>, t: nat) returns (x: State<T>)
    requires t < |s.threads| && s.threads[t] == ClearCheck && s.queue != [] && s.full > 0
    ensures x == s.(queue := s.queue[1..], removed := s.removed + [s.queue[0]], full := s.full - 1, empty := s.empty + 1)
    ensures forall u: State<T>, n: nat :: Alone(x, t, u, n) ==> Alone(s, t, u, n + 3)
  {
    var a := Advanced(s, t);
    var b := Advanced(a, t);
    x := Advanced(b, t);
    assert x.threads == s.threads;
    forall u: State<T>, n: nat | Alone(x, t, u, n) ensures Alone(s, t, u, n + 3) {
      Before(b, t, u, n);
      Before(a, t, u, n + 1);
      Before(s, t, u, n + 2);
    }
  }

  lemma {:induction false} ClearEnds<T>(s: State<T>, t: nat) returns (u: State<T>, n: nat)
    requires t < |s.threads| && s.threads[t] == ClearCheck && s.full == |s.queue|
    ensures Alone(s, t, u, n) && u.threads == s.threads[t := Idle]
    ensures u.queue == [] && u.removed == s.removed + s.queue && u.enqueued == s.enqueued
    decreases |s.queue|
  {
    var a := Advanced(s, t);
    if s.queue == [] {
      u := Advanced(a, t);
      assert Alone(u, t, u, 0);
      Before(a, t, u, 0);
      Before(s, t, u, 1);
      n := 2;
    } else {
      var x := ClearTurn(s, t);
      u, n := ClearEnds(x, t);
      n := n + 3;
      assert s.removed + s.queue == s.removed + [s.queue[0]] + s.queue[1..];
    }
    assert u.threads == s.threads[t := Idle];
  }

  lemma ClearAlone<T>(s: State<T>, t: nat) returns (u: State<T>, n: nat)
    requires Quiet(s) && t < |s.threads|
    ensures Alone(Step(s, t, Call(Clear)), t, u, n) && u.threads == s.threads
    ensures u.queue == [] && u.removed == s.removed + s.queue && u.enqueued == s.enqueued
  {
    QuietTokens(s);
    var a := Step(s, t, Call(Clear));
    var b := Advanced(a, t);
    u, n := ClearEnds(b, t);
    Before(a, t, u, n);
    n := n + 1;
    assert u.threads == s.threads;
  }

  /** Threads waiting for the lock with a reserved slot, or with a claimed item. */
  function Reserved<T>(threads: seq<PC<T>>): nat {
    if threads == [] then 0
    else Reserved(threads[..|threads| - 1]) + if threads[|threads| - 1].BlockPushLock? then 1 else 0
  }

  function Claimed<T>(threads: seq<PC<T>>): nat {
    if threads == [] then 0
    else Claimed(threads[..|threads| - 1]) + if threads[|threads| - 1].PopLock? then 1 else 0
  }

  lemma {:induction false} SumsByPosition<T>(threads: seq<PC<T>>, holder: Option<nat>)
    requires forall t :: 0 <= t < |threads| ==> (InCritical(threads[t]) <==> holder == Some(t))
    ensures var inside := holder.Some? && holder.value < |threads|;
            && SlotSum(threads) == Reserved(threads) + (if inside then SlotsHeld(threads[holder.value]) else 0)
            && ItemSum(threads) == Claimed(threads) + (if inside then ItemsHeld(threads[holder.value]) else 0)
  {
    if threads != [] {
      SumsByPosition(threads[..|threads| - 1], holder);
    }
  }

  /** The bookkeeping of the two semaphores, up to what the lock holder has in its hands. */
  lemma TokenAccounting<T>(s: State<T>)
    requires Inv(s)
    ensures s.holder == None ==>
              s.empty + Reserved(s.threads) + |s.queue| == s.cap && s.full + Claimed(s.threads) == |s.queue|
    ensures s.holder.Some? ==> var pc := s.threads[s.holder.value];
              && s.empty + Reserved(s.threads) + |s.queue| == s.cap - SlotsHeld(pc)
              && s.full + Claimed(s.threads) == |s.queue| - ItemsHeld(pc)
  {
    SumsByPosition(s.threads, s.holder);
  }

  // ---------------------------------------------------------------- progress of the lock holder

  ghost predicate HolderBlocked<T>(s: State<T>) {
    s.holder.Some? && s.holder.value < |s.threads| && !CanAdvance(s, s.holder.value)
  }

  /** Push and Clear wait on a semaphore while holding the lock.  They block exactly when every
      free slot is reserved by a BlockPush that waits for the lock, or every item is claimed by
      a pop that waits for the lock. */
  lemma HolderBlockedExactly<T>(s: State<T>)
    requires Inv(s) && s.holder.Some?
    ensures HolderBlocked(s) <==>
              var pc := s.threads[s.holder.value];
              || (pc.PushWaitEmpty? && Reserved(s.threads) + |s.queue| == s.cap)
              || ((pc.PushWaitFull? || pc.ClearWaitFull?) && Claimed(s.threads) == |s.queue| + 1)
  {
    TokenAccounting(s);
  }

  /** Such a holder is stuck for good: whatever the other threads do, nobody posts. */
  lemma BlockedStays<T(!new)>(s: State<T>, s': State<T>)
    requires Mutual(s) && HolderBlocked(s) && Next(s, s')
    ensures HolderBlocked(s') && s'.holder == s.holder
    ensures s'.threads[s.holder.value] == s.threads[s.holder.value]
    ensures s'.queue == s.queue && s'.removed == s.removed
  {
    var t: nat, e: Event<T> :| Steps(s, t, e, s');
  }

  lemma {:induction false} BlockedForever<T(!new)>(run: seq<State<T>>, i: nat, j: nat)
    requires Run(run) && Inv(run[0]) && i <= j < |run| && HolderBlocked(run[i])
    ensures HolderBlocked(run[j]) && run[j].holder == run[i].holder && run[j].queue == run[i].queue
    decreases j
  {
    if i < j {
      var k := j - 1;
      BlockedForever(run, i, k);
      assert Mutual(run[k]) by { RunInv(run, k); }
      assert Next(run[k], run[k + 1]);
      BlockedStays(run[k], run[j]);
    }
  }

  lemma CallIsNext<T(!new)>(s: State<T>, t: nat, op: Operation<T>, s': State<T>)
    requires t < |s.threads| && s.threads[t] == Idle && s' == Step(s, t, Call(op))
    ensures Next(s, s')
  {
    assert Steps(s, t, Call(op), s');
  }

  lemma AdvanceIsNext<T(!new)>(s: State<T>, t: nat, s': State<T>)
    requires t < |s.threads| && CanAdvance(s, t) && s' == Advanced(s, t)
    ensures Next(s, s')
  {
    assert Steps(s, t, Advance, s');
  }

  /** An empty queue of capacity 1 and two threads. */
  function Two(empty: nat, holder: Option<nat>, a: PC<int>, b: PC<int>): State<int> {
    State(1, [], empty, 0, holder, [a, b], [], [])
  }

  lemma Longer<T(!new)>(run: seq<State<T>>, s: State<T>) returns (longer: seq<State<T>>)
    requires Execution(run) && Next(run[|run| - 1], s)
    ensures Execution(longer) && longer[|longer| - 1] == s
  {
    longer := run + [s];
    forall i | 0 <= i < |longer| - 1 ensures Next(longer[i], longer[i + 1]) {
      if i < |run| - 1 {
        assert Next(run[i], run[i + 1]);
      }
    }
  }

  lemma BlockPushReserves() returns (run: seq<State<int>>)
    ensures Execution(run) && run[|run| - 1] == Two(0, None, BlockPushLock(7), Idle)
  {
    run := [Two(1, None, Idle, Idle)];
    CallIsNext(Two(1, None, Idle, Idle), 0, BlockPush(7), Two(1, None, BlockPushWaitEmpty(7), Idle));
    run := Longer(run, Two(1, None, BlockPushWaitEmpty(7), Idle));
    AdvanceIsNext(Two(1, None, BlockPushWaitEmpty(7), Idle), 0, Two(0, None, BlockPushLock(7), Idle));
    run := Longer(run, Two(0, None, BlockPushLock(7), Idle));
  }

  /** One BlockPush that reserved the only slot and one Push are enough. */
  lemma DeadlockReachable() returns (run: seq<State<int>>)
    ensures Execution(run) && HolderBlocked(run[|run| - 1])
  {
    run := BlockPushReserves();
    CallIsNext(Two(0, None, BlockPushLock(7), Idle), 1, Push(8), Two(0, None, BlockPushLock(7), PushLock(8)));
    run := Longer(run, Two(0, None, BlockPushLock(7), PushLock(8)));
    AdvanceIsNext(Two(0, None, BlockPushLock(7), PushLock(8)), 1, Two(0, Some(1), BlockPushLock(7), PushCheck(8)));
    run := Longer(run, Two(0, Some(1), BlockPushLock(7), PushCheck(8)));
    AdvanceIsNext(Two(0, Some(1), BlockPushLock(7), PushCheck(8)), 1, Two(0, Some(1), BlockPushLock(7), PushWaitEmpty(8)));
    run := Longer(run, Two(0, Some(1), BlockPushLock(7), PushWaitEmpty(8)));
  }

  /** Steps a holder in BlockPush, BlockPop or Pop still takes before it has unlocked; none of
      them waits.  Positions inside Push and Clear have no such count. */
  function StepsToUnlock<T>(pc: PC<T>): Option<nat> {
    match pc
    case BlockPushEnqueue(_) | PopDequeue => Some(3)
    case BlockPushPostFull | PopPostEmpty => Some(2)
    case Unlock => Some(1)
    case _ => None
  }

  predicate OnlyBlockingOperations<T>(e: Event<T>) {
    e.Call? ==> !e.op.Push? && !e.op.Clear?
  }

  ghost predicate BlockingRun<T(!new)>(run: seq<State<T>>) {
    && Execution(run)
    && forall i :: 0 <= i < |run| - 1 ==> BlockingNext(run[i], run[i + 1])
  }

  ghost predicate BlockingNext<T(!new)>(s: State<T>, s': State<T>) {
    exists t: nat, e: Event<T> :: Steps(s, t, e, s') && OnlyBlockingOperations(e)
  }

  predicate BlockingPosition<T>(pc: PC<T>) {
    match pc
    case PushLock(_) | PushCheck(_) | PushWaitFull(_) | PushPostEmpty(_) | PushWaitEmpty(_) | PushEnqueue(_) | PushPostFull => false
    case ClearLock | ClearCheck | ClearWaitFull | ClearPostEmpty => false
    case _ => true
  }

  lemma {:induction false} BlockingPositions<T(!new)>(run: seq<State<T>>, i: nat)
    requires BlockingRun(run) && i < |run|
    ensures forall t :: 0 <= t < |run[i].threads| ==> BlockingPosition(run[i].threads[t])
  {
    if i > 0 {
      BlockingPositions(run, i - 1);
      assert BlockingNext(run[i - 1], run[i - 1 + 1]);
    }
  }

  /** In runs without Push and Clear the lock holder is never blocked; its own steps bring it
      closer to the unlock and no other thread interferes, so the lock is always released. */
  lemma HolderNeverBlocked<T(!new)>(run: seq<State<T>>, i: nat)
    requires BlockingRun(run) && i < |run| && run[i].holder.Some?
    ensures var s, h := run[i], run[i].holder.value;
            && h < |s.threads| && CanAdvance(s, h)
            && StepsToUnlock(s.threads[h]).Some?
            && (if StepsToUnlock(s.threads[h]) == Some(1) then Advanced(s, h).holder == None
                else StepsToUnlock(Advanced(s, h).threads[h]) == Some(StepsToUnlock(s.threads[h]).value - 1)
                     && Advanced(s, h).holder == Some(h))
    ensures forall t: nat, e: Event<T>, s': State<T> ::
              Steps(run[i], t, e, s') && t != run[i].holder.value ==>
                s'.holder == run[i].holder && s'.threads[run[i].holder.value] == run[i].threads[run[i].holder.value]
  {
    ExecutionSafe(run, i);
    BlockingPositions(run, i);
  }
}
