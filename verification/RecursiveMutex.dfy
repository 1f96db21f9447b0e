/**
 The recursive mutex (src/base/thread.h): lock() first reads the owner without holding anything, so
 its safety rests on what such a read can return.

 The protocol is a state machine. Each atomic access of lock(), unlock() and owns_lock() is a step of
 its own, and the depth is read and written in two. Any number of threads take steps in any order.
 The owner is a relaxed atomic: it is the list of values stored to it so far, and a read may return
 any of them that is not older than one the reading thread has already seen, stored itself, or
 learned of by acquiring the inner mutex.
 */
module RecursiveMutex {
  import opened Wrappers

  // The identifier GetTID() gives: not zero, and distinct for distinct threads.
  type Thread = t: nat | t > 0 witness 1

  // What a thread does next. Idle is between two calls.
  datatype Pc =
    | Idle
    | ReadToIncrement | WriteIncremented(read: int)      // ++recursion_depth_ without the inner mutex
    | Acquire | StoreOwner | SetDepth                    // the slow path of lock()
    | ReadToDecrement | WriteDecremented(read: int)      // --recursion_depth_
    | ClearOwner | Release                               // the end of the last unlock()

  // A thread: its place, the oldest store of the owner it can still read, and how many of its calls
  // of lock() have returned without a matching unlock() having given the lock up.
  datatype Local = Local(pc: Pc, view: nat, locks: nat)

  // The inner mutex with the oldest store its last holder could still read, the stores of the owner
  // in their order, and the depth.
  datatype State = State(
    holder: Option<Thread>, released: nat, owners: seq<nat>, depth: int, threads: map<Thread, Local>)

  datatype Action =
    | Lock(read: nat)      // call lock(), the load of the owner returning the store of this index
    | Unlock               // call unlock()
    | OwnsLock(read: nat)  // call owns_lock(), likewise
    | Continue             // the next step of the call under way

  function Initial(ids: set<Thread>): State {
    State(None, 0, [0], 0, map t | t in ids :: Local(Idle, 0, 0))
  }

  function Max(a: nat, b: nat): nat {
    if a < b then b else a
  }

  predicate Readable(s: State, t: Thread, i: nat)
    requires t in s.threads
  {
    s.threads[t].view <= i < |s.owners|
  }

  // A caller unlocks only what it has locked; a thread waits for the inner mutex until it is free.
  predicate Enabled(s: State, t: Thread, action: Action) {
    t in s.threads &&
    var local := s.threads[t];
    match action
    case Lock(i) => local.pc.Idle? && Readable(s, t, i)
    case Unlock => local.pc.Idle? && local.locks > 0
    case OwnsLock(i) => local.pc.Idle? && Readable(s, t, i)
    case Continue => !local.pc.Idle? && (local.pc.Acquire? ==> s.holder.None?)
  }

  function With(s: State, t: Thread, local: Local): State {
    s.(threads := s.threads[t := local])
  }

  // A store of the owner by t, after which t goes on at pc.
  function Store(s: State, t: Thread, owner: nat, pc: Pc): State
    requires t in s.threads
  {
    With(s, t, s.threads[t].(pc := pc, view := |s.owners|)).(owners := s.owners + [owner])
  }

  function NextStep(s: State, t: Thread): State
    requires Enabled(s, t, Continue)
  {
    var local := s.threads[t];
    match local.pc
    case Idle => s
    // ++recursion_depth_
    case ReadToIncrement => With(s, t, local.(pc := WriteIncremented(s.depth)))
    case WriteIncremented(d) => With(s, t, local.(pc := Idle, locks := local.locks + 1)).(depth := d + 1)
    // mutex_.lock()
    case Acquire => With(s, t, local.(pc := StoreOwner, view := Max(local.view, s.released))).(holder := Some(t))
    // owner_.store(current_tid)
    case StoreOwner => Store(s, t, t, SetDepth)
    // recursion_depth_ = 1
    case SetDepth => With(s, t, local.(pc := Idle, locks := local.locks + 1)).(depth := 1)
    // --recursion_depth_
    case ReadToDecrement => With(s, t, local.(pc := WriteDecremented(s.depth)))
    case WriteDecremented(d) =>
      With(s, t, local.(pc := if d - 1 > 0 then Idle else ClearOwner,
                        locks := if local.locks > 0 then local.locks - 1 else 0))
      .(depth := d - 1)
    // owner_.store(0)
    case ClearOwner => Store(s, t, 0, Release)
    // mutex_.unlock()
    case Release => With(s, t, local.(pc := Idle)).(holder := None, released := local.view)
  }

  function Next(s: State, t: Thread, action: Action): State
    requires Enabled(s, t, action)
  {
    var local := s.threads[t];
    match action
    case Lock(i) => With(s, t, local.(pc := if s.owners[i] == t then ReadToIncrement else Acquire, view := i))
    case Unlock => With(s, t, local.(pc := ReadToDecrement))
    case OwnsLock(i) => With(s, t, local.(view := i))
    case Continue => NextStep(s, t)
  }

  // The states some interleaving reaches.
  predicate Reaches(s: State, schedule: seq<(Thread, Action)>, end: State)
    decreases |schedule|
  {
    if schedule == [] then s == end
    else
      Enabled(s, schedule[0].0, schedule[0].1) &&
      Reaches(Next(s, schedule[0].0, schedule[0].1), schedule[1..], end)
  }

  // ---- The invariant ----

  // The value of the owner in the order of its stores.
  function Owner(s: State): nat {
    if s.owners == [] then 0 else s.owners[|s.owners| - 1]
  }

  // The thread has stored itself as the owner and not cleared it yet.
  predicate Owning(local: Local) {
    local.locks > 0 || local.pc.SetDepth? || local.pc.ClearOwner?
  }

  predicate Holding(local: Local) {
    Owning(local) || local.pc.StoreOwner? || local.pc.Release?
  }

  predicate LocksMatchPlace(local: Local) {
    match local.pc
    case Idle => true
    case ReadToIncrement | WriteIncremented(_) | ReadToDecrement | WriteDecremented(_) => local.locks > 0
    case Acquire | StoreOwner | SetDepth | ClearOwner | Release => local.locks == 0
  }

  ghost predicate LocalInvariant(s: State, t: Thread)
    requires s.owners != [] && t in s.threads
  {
    var local := s.threads[t];
    && local.view < |s.owners|
    && LocksMatchPlace(local)
    && (s.holder == Some(t) <==> Holding(local))
    && (Holding(local) ==> s.depth == local.locks && Owner(s) == if Owning(local) then t else 0)
    && (if Owning(local) then local.view == |s.owners| - 1
        else forall i | local.view <= i < |s.owners| :: s.owners[i] != t)
    && (local.pc.WriteIncremented? || local.pc.WriteDecremented? ==> local.pc.read == s.depth)
  }

  ghost predicate Invariant(s: State) {
    && s.owners != [] && s.released < |s.owners|
    && (s.holder.Some? ==> s.holder.value in s.threads)
    && (s.holder.None? ==> s.depth == 0 && Owner(s) == 0)
    && forall t | t in s.threads :: LocalInvariant(s, t)
  }

  lemma InitialInvariant(ids: set<Thread>)
    ensures Invariant(Initial(ids))
  {}

  lemma OwnStep(s: State, t: Thread, action: Action)
    requires Invariant(s) && Enabled(s, t, action)
    ensures var s' := Next(s, t, action);
      s'.owners != [] && s'.released < |s'.owners| && t in s'.threads && LocalInvariant(s', t)
  {
    assert LocalInvariant(s, t);
  }

  lemma OthersStep(s: State, t: Thread, action: Action, u: Thread)
    requires Invariant(s) && Enabled(s, t, action) && u in s.threads && u != t
    ensures var s' := Next(s, t, action); s'.owners != [] && u in s'.threads && LocalInvariant(s', u)
  {
    assert LocalInvariant(s, t) && LocalInvariant(s, u);
  }

  // Every step of every thread keeps the invariant.
  lemma StepKeepsInvariant(s: State, t: Thread, action: Action)
    requires Invariant(s) && Enabled(s, t, action)
    ensures Invariant(Next(s, t, action))
  {
    var s' := Next(s, t, action);
    OwnStep(s, t, action);
    forall u | u in s'.threads && u != t ensures LocalInvariant(s', u) {
      OthersStep(s, t, action, u);
    }
    assert LocalInvariant(s, t);
  }

  lemma {:induction false} RunKeepsInvariant(s: State, schedule: seq<(Thread, Action)>, end: State)
    requires Invariant(s) && Reaches(s, schedule, end)
    ensures Invariant(end)
    decreases |schedule|
  {
    hide Invariant, Next;
    if schedule != [] {
      StepKeepsInvariant(s, schedule[0].0, schedule[0].1);
      RunKeepsInvariant(Next(s, schedule[0].0, schedule[0].1), schedule[1..], end);
    }
  }

  // ---- What holds in every state of every run ----

  ghost predicate Reachable(s: State) {
    exists ids: set<Thread>, schedule :: Reaches(Initial(ids), schedule, s)
  }

  lemma ReachableInvariant(s: State)
    requires Reachable(s)
    ensures Invariant(s)
  {
    hide Invariant;
    var ids: set<Thread>, schedule :| Reaches(Initial(ids), schedule, s);
    InitialInvariant(ids);
    RunKeepsInvariant(Initial(ids), schedule, s);
  }

  // At most one thread is between lock() and unlock(), and the depth counts its locks.
  lemma MutualExclusion(s: State, t: Thread, u: Thread)
    requires Reachable(s) && t in s.threads && u in s.threads
    requires s.threads[t].locks > 0
    ensures s.threads[u].locks > 0 ==> t == u
    ensures s.holder == Some(t) && Owner(s) == t && s.depth == s.threads[t].locks
  {
    ReachableInvariant(s);
    assert LocalInvariant(s, t) && LocalInvariant(s, u);
  }

  // The owner holds the inner mutex.
  lemma OwnerHolds(s: State, t: Thread)
    requires Reachable(s) && t in s.threads && Owner(s) == t
    ensures s.holder == Some(t)
  {
    ReachableInvariant(s);
    assert LocalInvariant(s, t);
    if s.holder.Some? {
      assert LocalInvariant(s, s.holder.value);
    }
  }

  // However stale, a read of the owner made between calls is the reader's own identifier exactly
  // when the reader holds the lock: owns_lock() is exact, the check in unlock() always passes, and
  // the fast path of lock() is taken by the owner, always, and by no one else.
  lemma OwnerReadIsExact(s: State, t: Thread, i: nat)
    requires Reachable(s) && t in s.threads && s.threads[t].pc.Idle? && Readable(s, t, i)
    ensures s.owners[i] == t <==> s.threads[t].locks > 0
  {
    ReachableInvariant(s);
    assert LocalInvariant(s, t);
  }

  // The accesses of the depth.
  predicate TouchesDepth(pc: Pc) {
    pc.ReadToIncrement? || pc.WriteIncremented? || pc.ReadToDecrement? || pc.WriteDecremented? || pc.SetDepth?
  }

  // Only the holder of the inner mutex touches the depth, so no increment or decrement is lost: what
  // it has read is still there when it writes.
  lemma DepthIsTheHolders(s: State, t: Thread)
    requires Reachable(s) && t in s.threads && TouchesDepth(s.threads[t].pc)
    ensures s.holder == Some(t)
    ensures var pc := s.threads[t].pc; pc.WriteIncremented? || pc.WriteDecremented? ==> pc.read == s.depth
  {
    ReachableInvariant(s);
    assert LocalInvariant(s, t);
  }

  lemma OthersLeaveDepth(s: State, t: Thread, action: Action)
    requires Reachable(s) && Enabled(s, t, action) && s.holder != Some(t)
    ensures Next(s, t, action).depth == s.depth
  {
    ReachableInvariant(s);
    assert LocalInvariant(s, t);
  }

  // Whoever has just acquired the inner mutex finds the depth at zero.
  lemma DepthIsZeroOnAcquire(s: State, t: Thread)
    requires Reachable(s) && t in s.threads && s.threads[t].pc.StoreOwner?
    ensures s.depth == 0 && Owner(s) == 0
  {
    ReachableInvariant(s);
    assert LocalInvariant(s, t);
  }

  // When no call is under way and every lock is given back, the mutex is as it was built.
  lemma AllGivenBack(s: State)
    requires Reachable(s) && forall t | t in s.threads :: s.threads[t].pc.Idle? && s.threads[t].locks == 0
    ensures s.holder == None && Owner(s) == 0 && s.depth == 0
  {
    ReachableInvariant(s);
    HolderHolds(s);
  }

  lemma HolderHolds(s: State)
    requires Reachable(s)
    ensures s.holder.Some? ==> s.holder.value in s.threads && Holding(s.threads[s.holder.value])
  {
    ReachableInvariant(s);
    assert s.holder.Some? ==> LocalInvariant(s, s.holder.value);
  }

  // A thread that waits for the inner mutex waits for another thread, which can take a step or
  // is between its lock() and its unlock(): no thread ever waits for itself.
  lemma WaitingIsForAnother(s: State, t: Thread)
    requires Reachable(s) && t in s.threads && s.threads[t].pc.Acquire? && !Enabled(s, t, Continue)
    ensures s.holder.Some? && s.holder.value != t
    ensures var h := s.holder.value;
      Enabled(s, h, Continue) || (h in s.threads && s.threads[h].pc.Idle? && s.threads[h].locks > 0)
  {
    ReachableInvariant(s);
    assert LocalInvariant(s, t) && LocalInvariant(s, s.holder.value);
  }

  // ---- The lock it implements ----

  // A recursive lock as its users see it: a lock or an unlock is one step.
  datatype RecursiveLock = Free | Held(owner: Thread, count: nat) {
    predicate CanLock(t: Thread) {
      Free? || owner == t
    }

    function Locked(t: Thread): RecursiveLock {
      if Free? then Held(t, 1) else Held(t, count + 1)
    }

    predicate CanUnlock(t: Thread) {
      Held? && owner == t && count > 0
    }

    function Unlocked(t: Thread): RecursiveLock
      requires CanUnlock(t)
    {
      if count == 1 then Free else Held(t, count - 1)
    }
  }

  // What the state stands for, told by its calls alone: the thread with locks outstanding.
  function Abstract(s: State): RecursiveLock {
    if s.holder.Some? && s.holder.value in s.threads && s.threads[s.holder.value].locks > 0 then
      Held(s.holder.value, s.threads[s.holder.value].locks)
    else
      Free
  }

  // Each step of the mutex is a step of that lock or none; it is a lock where a lock() is about to
  // return, and an unlock where the depth is decremented.
  lemma StepRefinesLock(s: State, t: Thread, action: Action)
    requires Reachable(s) && Enabled(s, t, action)
    ensures var a, b, pc := Abstract(s), Abstract(Next(s, t, action)), s.threads[t].pc;
      if action.Continue? && (pc.WriteIncremented? || pc.SetDepth?) then a.CanLock(t) && b == a.Locked(t)
      else if action.Continue? && pc.WriteDecremented? then a.CanUnlock(t) && b == a.Unlocked(t)
      else b == a
  {
    ReachableInvariant(s);
    assert LocalInvariant(s, t);
    if s.holder.Some? {
      assert LocalInvariant(s, s.holder.value);
    }
  }

  // ---- Stale reads do happen ----

  lemma {:induction false} ReachesAppend(s: State, schedule: seq<(Thread, Action)>, middle: State,
                                         t: Thread, action: Action)
    requires Reaches(s, schedule, middle) && Enabled(middle, t, action)
    ensures Reaches(s, schedule + [(t, action)], Next(middle, t, action))
    decreases |schedule|
  {
    hide Enabled, Next;
    if schedule == [] {
      assert [(t, action)][1..] == [];
      assert Reaches(Next(s, t, action), [], Next(s, t, action));
    } else {
      ReachesAppend(Next(s, schedule[0].0, schedule[0].1), schedule[1..], middle, t, action);
      assert (schedule + [(t, action)])[1..] == schedule[1..] + [(t, action)];
    }
  }

  lemma ReachableNext(s: State, t: Thread, action: Action)
    requires Reachable(s) && Enabled(s, t, action)
    ensures Reachable(Next(s, t, action))
  {
    hide Enabled, Next;
    var ids: set<Thread>, schedule :| Reaches(Initial(ids), schedule, s);
    ReachesAppend(Initial(ids), schedule, s, t, action);
  }

  // Two threads of which the first has not begun.
  function Second(holder: Option<Thread>, released: nat, owners: seq<nat>, depth: int, second: Local): State {
    State(holder, released, owners, depth, map[1 := Local(Idle, 0, 0), 2 := second])
  }

  lemma Goes(s: State, t: Thread, action: Action, next: State)
    requires Reachable(s) && Enabled(s, t, action) && Next(s, t, action) == next
    ensures Reachable(next)
  {
    ReachableNext(s, t, action);
  }

  lemma SecondLocks()
    ensures Reachable(Second(Some(2), 0, [0, 2], 1, Local(Idle, 1, 1)))
  {
    hide Reachable;
    var s0 := Second(None, 0, [0], 0, Local(Idle, 0, 0));
    var s1 := s0.(threads := s0.threads[2 := Local(Acquire, 0, 0)]);
    var s2 := Second(Some(2), 0, [0], 0, Local(StoreOwner, 0, 0));
    var s3 := Second(Some(2), 0, [0, 2], 0, Local(SetDepth, 1, 0));
    var s4 := Second(Some(2), 0, [0, 2], 1, Local(Idle, 1, 1));
    assert Reachable(s0) by { ReachableAtFirst(); }
    Goes(s0, 2, Lock(0), s1);
    Goes(s1, 2, Continue, s2);
    Goes(s2, 2, Continue, s3);
    Goes(s3, 2, Continue, s4);
  }

  lemma ReachableAtFirst()
    ensures Reachable(Second(None, 0, [0], 0, Local(Idle, 0, 0)))
  {
    var ids: set<Thread> := {1, 2};
    assert Initial(ids) == Second(None, 0, [0], 0, Local(Idle, 0, 0));
    assert Reaches(Initial(ids), [], Initial(ids));
  }

  // After one thread has locked and unlocked, another can still read it as the owner, although the
  // owner is none; it then takes the slow path.
  lemma StaleReadHappens()
    ensures var s := Second(None, 2, [0, 2, 0], 0, Local(Idle, 2, 0));
      Reachable(s) && Enabled(s, 1, Lock(1)) && s.owners[1] != Owner(s) && Next(s, 1, Lock(1)).threads[1].pc.Acquire?
  {
    hide Reachable;
    SecondLocks();
    var s4 := Second(Some(2), 0, [0, 2], 1, Local(Idle, 1, 1));
    var s5 := Second(Some(2), 0, [0, 2], 1, Local(ReadToDecrement, 1, 1));
    var s6 := Second(Some(2), 0, [0, 2], 1, Local(WriteDecremented(1), 1, 1));
    var s7 := Second(Some(2), 0, [0, 2], 0, Local(ClearOwner, 1, 0));
    var s8 := Second(Some(2), 0, [0, 2, 0], 0, Local(Release, 2, 0));
    var s9 := Second(None, 2, [0, 2, 0], 0, Local(Idle, 2, 0));
    Goes(s4, 2, Unlock, s5);
    Goes(s5, 2, Continue, s6);
    Goes(s6, 2, Continue, s7);
    Goes(s7, 2, Continue, s8);
    Goes(s8, 2, Continue, s9);
  }

  // ---- One call after another ----

  // A call of lock() that does not read its own thread, while the inner mutex is free: the thread
  // ends up holding it, as the owner, with a depth of one.
  lemma LockTakes(s: State, t: Thread, i: nat, end: State)
    requires s.holder == None && Enabled(s, t, Lock(i)) && s.owners[i] != t && s.released < |s.owners|
    requires end == State(Some(t), s.released, s.owners + [t], 1,
                          s.threads[t := Local(Idle, |s.owners|, s.threads[t].locks + 1)])
    ensures Reaches(s, [(t, Lock(i)), (t, Continue), (t, Continue), (t, Continue)], end)
  {
    var s1 := Next(s, t, Lock(i));
    var s2 := Next(s1, t, Continue);
    var s3 := Next(s2, t, Continue);
    var s4 := Next(s3, t, Continue);
    assert s4.threads == end.threads;
    ReachesStep(s4, [], t, Continue, s3, end);
    ReachesStep(s3, [(t, Continue)], t, Continue, s2, end);
    ReachesStep(s2, [(t, Continue), (t, Continue)], t, Continue, s1, end);
    ReachesStep(s1, [(t, Continue), (t, Continue), (t, Continue)], t, Lock(i), s, end);
  }

  // One that reads its own thread only counts.
  lemma LockCounts(s: State, t: Thread, i: nat, end: State)
    requires Enabled(s, t, Lock(i)) && s.owners[i] == t
    requires end == s.(depth := s.depth + 1, threads := s.threads[t := Local(Idle, i, s.threads[t].locks + 1)])
    ensures Reaches(s, [(t, Lock(i)), (t, Continue), (t, Continue)], end)
  {
    var s1 := Next(s, t, Lock(i));
    var s2 := Next(s1, t, Continue);
    var s3 := Next(s2, t, Continue);
    assert s3.threads == end.threads;
    ReachesStep(s3, [], t, Continue, s2, end);
    ReachesStep(s2, [(t, Continue)], t, Continue, s1, end);
    ReachesStep(s1, [(t, Continue), (t, Continue)], t, Lock(i), s, end);
  }

  // An unlock() of a greater depth only counts.
  lemma UnlockCounts(s: State, t: Thread, end: State)
    requires Enabled(s, t, Unlock) && s.depth > 1
    requires end == s.(depth := s.depth - 1,
                       threads := s.threads[t := Local(Idle, s.threads[t].view, s.threads[t].locks - 1)])
    ensures Reaches(s, [(t, Unlock), (t, Continue), (t, Continue)], end)
  {
    var s1 := Next(s, t, Unlock);
    var s2 := Next(s1, t, Continue);
    var s3 := Next(s2, t, Continue);
    assert s3.threads == end.threads;
    ReachesStep(s3, [], t, Continue, s2, end);
    ReachesStep(s2, [(t, Continue)], t, Continue, s1, end);
    ReachesStep(s1, [(t, Continue), (t, Continue)], t, Unlock, s, end);
  }

  // The last one clears the owner before it frees the inner mutex, for the next holder to see.
  lemma UnlockReleases(s: State, t: Thread, cleared: State, end: State)
    requires Enabled(s, t, Unlock) && s.depth == 1
    requires cleared == State(s.holder, s.released, s.owners + [0], 0,
                              s.threads[t := Local(Release, |s.owners|, s.threads[t].locks - 1)])
    requires end == State(None, |s.owners|, s.owners + [0], 0,
                          s.threads[t := Local(Idle, |s.owners|, s.threads[t].locks - 1)])
    ensures Reaches(s, [(t, Unlock), (t, Continue), (t, Continue), (t, Continue)], cleared)
    ensures Reaches(cleared, [(t, Continue)], end)
  {
    var s1 := Next(s, t, Unlock);
    var s2 := Next(s1, t, Continue);
    var s3 := Next(s2, t, Continue);
    var s4 := Next(s3, t, Continue);
    assert s4.threads == cleared.threads;
    ReachesStep(s4, [], t, Continue, s3, cleared);
    ReachesStep(s3, [(t, Continue)], t, Continue, s2, cleared);
    ReachesStep(s2, [(t, Continue), (t, Continue)], t, Continue, s1, cleared);
    ReachesStep(s1, [(t, Continue), (t, Continue), (t, Continue)], t, Unlock, s, cleared);
    assert Next(cleared, t, Continue).threads == end.threads;
    ReachesStep(end, [], t, Continue, cleared, end);
  }

  lemma ReachesStep(next: State, rest: seq<(Thread, Action)>, t: Thread, action: Action, s: State, end: State)
    requires Enabled(s, t, action) && next == Next(s, t, action) && Reaches(next, rest, end)
    ensures Reaches(s, [(t, action)] + rest, end)
  {
    hide Next, Enabled;
    assert ([(t, action)] + rest)[1..] == rest;
  }
}
