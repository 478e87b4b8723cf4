/** The locking protocol between the kernel log and the kernel allocator, as threads that
    take one atomic step at a time. */
module LockProtocol {
  import opened Bytes

  /** What a thread can own: the four spinlocks, and the two "in progress" flags. */
  datatype Resource =
    | PublicLock      // klog_public_lock
    | InternalLock    // klog_internal_lock
    | KmallocLock     // kmalloc_lock
    | HeapLock        // kmalloc_liballoc_lock
    | LogFlag         // klog_in_progress
    | AllocFlag       // kmalloc_in_progress

  /** Where an activation of one of the functions is. */
  datatype Frame =
    // klog
    | LogEnter        // before the exchange on klog_in_progress
    | LogAcquire      // spinning on klog_internal_lock
    | LogBody         // formatting, storing, feeding sinks
    | LogGrow         // the store needs room: before kmalloc_is_in_progress
    | LogRealloc      // calling krealloc, or just back from it
    | LogRelease      // lock released, before klog_in_progress = 0
    // kmalloc, kfree, krealloc, kmalloc_init
    | AllocAcquire    // spinning on kmalloc_lock
    | AllocMark       // before kmalloc_in_progress = 1
    | AllocBody       // in the allocator
    | HeapAcquire     // spinning on kmalloc_liballoc_lock
    | HeapBody        // in liballoc
    | AllocUnmark     // flag cleared, before the unlock
    // klog_init_postboot, and the dump functions that bracket their output
    | BootAlloc       // calling kmalloc, or just back from it
    | BootPublic      // spinning on klog_public_lock
    | BootInternal    // spinning on klog_internal_lock
    | BootCopy        // switching buffers
    | BootLog         // logging under klog_public_lock
    | DumpPublic      // spinning on klog_public_lock
    | Halted          // in kpanic_halt

  datatype State = State(taken: set<Resource>, threads: seq<seq<Frame>>)

  predicate Holds(f: Frame, r: Resource)
  {
    match r
    case PublicLock => f in {BootInternal, BootCopy, BootLog}
    case InternalLock => f in {LogBody, LogGrow, LogRealloc, BootCopy}
    case KmallocLock => f in {AllocMark, AllocBody, HeapAcquire, HeapBody, AllocUnmark}
    case HeapLock => f == HeapBody
    case LogFlag => f in {LogAcquire, LogBody, LogGrow, LogRealloc, LogRelease}
    case AllocFlag => f in {AllocBody, HeapAcquire, HeapBody}
  }

  /** The lock a frame is spinning on, if any. */
  function Wanted(f: Frame): Option<Resource>
  {
    match f
    case LogAcquire | BootInternal => Some(InternalLock)
    case AllocAcquire => Some(KmallocLock)
    case HeapAcquire => Some(HeapLock)
    case BootPublic | DumpPublic => Some(PublicLock)
    case _ => None
  }

  predicate Stuck(f: Frame, taken: set<Resource>)
  {
    Wanted(f).Some? && Wanted(f).value in taken
  }

  datatype Move =
    | Start(f: Frame)   // an idle thread calls one of the functions
    | Advance           // the only way on: test-and-set, store, acquire, return
    | Log               // call klog from here
    | Other             // the other way on: grow the log, enter liballoc
    | Reset             // kmalloc_init's klock_init of the liballoc lock
    | Panic

  /** How a frame is replaced by a move, and which resources are taken afterwards;
      `ok` is false if the move is not possible. */
  datatype Effect = Effect(ok: bool, frames: seq<Frame>, taken: set<Resource>)

  function Stay(f: Frame, taken: set<Resource>): Effect
  {
    Effect(false, [f], taken)
  }

  function Acquire(f: Frame, next: Frame, taken: set<Resource>): Effect
    requires Wanted(f).Some?
  {
    if Stuck(f, taken) then Stay(f, taken) else Effect(true, [next], taken + {Wanted(f).value})
  }

  function Act(f: Frame, m: Move, taken: set<Resource>): Effect
  {
    match (m, f)
    case (Panic, _) => if f == Halted then Stay(f, taken) else Effect(true, [f, Halted], taken)
    case (Log, AllocBody) => Effect(true, [f, LogEnter], taken)
    case (Log, HeapBody) => Effect(true, [f, LogEnter], taken)
    case (Log, BootLog) => Effect(true, [f, LogEnter], taken)
    case (Log, BootAlloc) => Effect(true, [f, LogEnter], taken)
    case (Advance, LogEnter) =>
      if LogFlag in taken then Effect(true, [], taken) else Effect(true, [LogAcquire], taken + {LogFlag})
    case (Advance, LogAcquire) => Acquire(f, LogBody, taken)
    case (Other, LogBody) => Effect(true, [LogGrow], taken)
    case (Advance, LogBody) => Effect(true, [LogRelease], taken - {InternalLock})
    case (Advance, LogGrow) =>
      if AllocFlag in taken then Effect(true, [LogBody], taken) else Effect(true, [LogRealloc, AllocAcquire], taken)
    case (Advance, LogRealloc) => Effect(true, [LogBody], taken)
    case (Advance, LogRelease) => Effect(true, [], taken - {LogFlag})
    case (Advance, AllocAcquire) => Acquire(f, AllocMark, taken)
    case (Advance, AllocMark) => Effect(true, [AllocBody], taken + {AllocFlag})
    case (Advance, AllocBody) => Effect(true, [AllocUnmark], taken - {AllocFlag})
    case (Other, AllocBody) => Effect(true, [HeapAcquire], taken)
    case (Reset, AllocBody) => Effect(true, [AllocBody], taken - {HeapLock})
    case (Advance, HeapAcquire) => Acquire(f, HeapBody, taken)
    case (Advance, HeapBody) => Effect(true, [AllocBody], taken - {HeapLock})
    case (Advance, AllocUnmark) => Effect(true, [], taken - {KmallocLock})
    case (Other, BootAlloc) => Effect(true, [BootAlloc, AllocAcquire], taken)
    case (Advance, BootAlloc) => Effect(true, [BootPublic], taken)
    case (Advance, BootPublic) => Acquire(f, BootInternal, taken)
    case (Advance, BootInternal) => Acquire(f, BootCopy, taken)
    case (Advance, BootCopy) => Effect(true, [BootLog], taken - {InternalLock})
    case (Advance, BootLog) => Effect(true, [], taken - {PublicLock})
    case (Advance, DumpPublic) => Acquire(f, BootLog, taken)
    case _ => Stay(f, taken)
  }

  predicate Entry(f: Frame)
  {
    f in {LogEnter, AllocAcquire, BootAlloc, DumpPublic}
  }

  function Replace(s: State, t: nat, e: Effect): State
    requires t < |s.threads| && s.threads[t] != []
  {
    State(e.taken, s.threads[t := s.threads[t][..|s.threads[t]| - 1] + e.frames])
  }

  /** Thread t makes move m; a move that is not possible changes nothing. */
  function Step(s: State, t: nat, m: Move): State
  {
    if t >= |s.threads| then s
    else if s.threads[t] == [] then
      if m.Start? && Entry(m.f) then s.(threads := s.threads[t := [m.f]]) else s
    else
      Replace(s, t, Act(s.threads[t][|s.threads[t]| - 1], m, s.taken))
  }

  function Initial(n: nat): State
  {
    State({}, seq(n, i => []))
  }

  function Run(s: State, schedule: seq<(nat, Move)>): State
    decreases |schedule|
  {
    if schedule == [] then s else Run(Step(s, schedule[0].0, schedule[0].1), schedule[1..])
  }

  // ---------- the invariant ----------

  predicate HeldAt(s: State, r: Resource, t: nat, k: nat)
  {
    t < |s.threads| && k < |s.threads[t]| && Holds(s.threads[t][k], r)
  }

  /** A resource is taken exactly if some activation holds it, and no two do. */
  ghost predicate Exclusive(s: State, r: Resource)
  {
    && (forall t, k | HeldAt(s, r, t, k) :: r in s.taken)
    && (r in s.taken ==> exists t, k :: HeldAt(s, r, t, k))
    && (forall t, k, u, j | HeldAt(s, r, t, k) && HeldAt(s, r, u, j) :: t == u && k == j)
  }

  predicate LogFrame(f: Frame)
  {
    f in {LogEnter, LogAcquire, LogBody, LogGrow, LogRealloc, LogRelease}
  }

  predicate AllocFrame(f: Frame)
  {
    f in {AllocAcquire, AllocMark, AllocBody, HeapAcquire, HeapBody, AllocUnmark}
  }

  /** g may be the activation called by f. */
  predicate Calls(f: Frame, g: Frame)
  {
    || (f in {AllocBody, HeapBody, BootLog, BootAlloc} && LogFrame(g))
    || (f in {LogRealloc, BootAlloc} && AllocFrame(g))
    || (f != Halted && g == Halted)
  }

  /** A call stack of the program in which the log grows its buffer only where no
      allocator activation lies below. */
  ghost predicate Shaped(st: seq<Frame>)
  {
    && (forall k | 0 < k < |st| :: Calls(st[k - 1], st[k]))
    && (forall k | 0 < k < |st| && st[k] == LogRealloc :: st[k - 1] == BootLog || st[k - 1] == BootAlloc)
  }

  ghost predicate Safe(s: State)
  {
    && (forall r :: Exclusive(s, r))
    && (forall t | 0 <= t < |s.threads| :: Shaped(s.threads[t]))
  }

  lemma InitialSafe(n: nat)
    ensures Safe(Initial(n))
  {
  }

  // ---------- every step keeps it ----------

  /** What a move may do to the holding of r, seen from the acting frame alone. */
  predicate Transfers(f: Frame, taken: set<Resource>, e: Effect, r: Resource)
  {
    var after := e.frames != [] && Holds(e.frames[0], r);
    && |e.frames| <= 2
    && (|e.frames| == 2 ==> !Holds(e.frames[1], r))
    && (after ==> r in e.taken)
    && (after && !Holds(f, r) ==> r !in taken)
    && (!after && Holds(f, r) ==> r !in e.taken)
    && (!after && !Holds(f, r) ==> (r in e.taken <==> r in taken))
  }

  /** The two plain stores (the flag set in AllocMark, the lock reset in AllocBody) need the
      global fact that nobody else holds what they overwrite. */
  lemma ActTransfers(f: Frame, m: Move, taken: set<Resource>, r: Resource)
    requires f == AllocBody ==> HeapLock !in taken
    requires f == AllocMark ==> AllocFlag !in taken
    requires Holds(f, r) ==> r in taken
    ensures Transfers(f, taken, Act(f, m, taken), r)
  {
    hide Act, Transfers, Holds;
    match r
    case InternalLock | LogFlag => ActTransfersLog(f, m, taken, r);
    case PublicLock => ActTransfersPublic(f, m, taken);
    case KmallocLock | AllocFlag => ActTransfersAlloc(f, m, taken, r);
    case HeapLock => ActTransfersHeap(f, m, taken);
  }

  lemma ActTransfersLog(f: Frame, m: Move, taken: set<Resource>, r: Resource)
    requires (Holds(f, r) ==> r in taken) && r in {InternalLock, LogFlag}
    ensures Transfers(f, taken, Act(f, m, taken), r)
  {
  }

  lemma ActTransfersPublic(f: Frame, m: Move, taken: set<Resource>)
    requires Holds(f, PublicLock) ==> PublicLock in taken
    ensures Transfers(f, taken, Act(f, m, taken), PublicLock)
  {
  }

  lemma ActTransfersAlloc(f: Frame, m: Move, taken: set<Resource>, r: Resource)
    requires f == AllocMark ==> AllocFlag !in taken
    requires (Holds(f, r) ==> r in taken) && r in {KmallocLock, AllocFlag}
    ensures Transfers(f, taken, Act(f, m, taken), r)
  {
  }

  lemma ActTransfersHeap(f: Frame, m: Move, taken: set<Resource>)
    requires f == AllocBody ==> HeapLock !in taken
    requires Holds(f, HeapLock) ==> HeapLock in taken
    ensures Transfers(f, taken, Act(f, m, taken), HeapLock)
  {
  }

  /** Nobody else is inside the critical section of kmalloc_lock. */
  lemma InsideKmalloc(s: State, t: nat, k: nat)
    requires Safe(s) && HeldAt(s, KmallocLock, t, k)
    ensures s.threads[t][k] == AllocBody ==> HeapLock !in s.taken
    ensures s.threads[t][k] == AllocMark ==> AllocFlag !in s.taken
    ensures s.threads[t][k] == HeapAcquire ==> HeapLock !in s.taken
  {
    assert Exclusive(s, KmallocLock) && Exclusive(s, HeapLock) && Exclusive(s, AllocFlag);
    forall u, j | HeldAt(s, HeapLock, u, j) || HeldAt(s, AllocFlag, u, j)
      ensures u == t && j == k
    {
      assert HeldAt(s, KmallocLock, u, j);
    }
  }

  lemma ReplaceExclusive(s: State, t: nat, e: Effect, r: Resource)
    requires t < |s.threads| && s.threads[t] != []
    requires Exclusive(s, r)
    requires Transfers(s.threads[t][|s.threads[t]| - 1], s.taken, e, r)
    ensures Exclusive(Replace(s, t, e), r)
  {
    var s' := Replace(s, t, e);
    var n := |s.threads[t]| - 1;
    forall u: nat, j: nat
      ensures HeldAt(s', r, u, j) <==>
              if u == t && j >= n then j == n && e.frames != [] && Holds(e.frames[0], r) else HeldAt(s, r, u, j)
    {
    }
    assert Holds(s.threads[t][n], r) <==> HeldAt(s, r, t, n);
    if r in s'.taken && !HeldAt(s', r, t, n) {
      var u, j :| HeldAt(s, r, u, j);
      assert HeldAt(s', r, u, j);
    }
  }

  lemma StepExclusive(s: State, t: nat, m: Move, r: Resource)
    requires Safe(s)
    ensures Exclusive(Step(s, t, m), r)
  {
    assert Exclusive(s, r);
    if t < |s.threads| {
      if s.threads[t] == [] {
        forall u, j
          ensures HeldAt(Step(s, t, m), r, u, j) <==> HeldAt(s, r, u, j)
        {
        }
      } else {
        var n := |s.threads[t]| - 1;
        var f := s.threads[t][n];
        assert Holds(f, r) ==> HeldAt(s, r, t, n);
        if Holds(f, KmallocLock) {
          assert HeldAt(s, KmallocLock, t, n);
          InsideKmalloc(s, t, n);
        }
        ActTransfers(f, m, s.taken, r);
        ReplaceExclusive(s, t, Act(f, m, s.taken), r);
      }
    }
  }

  /** What a move may do to the calls on a stack: below is the caller of f. */
  predicate Stacks(below: Frame, f: Frame, frames: seq<Frame>)
  {
    && |frames| <= 2
    && (|frames| > 0 && Calls(below, f) ==>
        && Calls(below, frames[0])
        && (frames[0] == LogRealloc ==> below == BootLog || below == BootAlloc))
    && (|frames| == 2 ==> Calls(frames[0], frames[1]) && frames[1] != LogRealloc)
  }

  /** The log grows its buffer only when no allocation is in progress, so never inside one. */
  lemma ActStacks(below: Frame, f: Frame, m: Move, taken: set<Resource>)
    requires Holds(below, AllocFlag) ==> AllocFlag in taken
    requires f == LogRealloc ==> below == BootLog || below == BootAlloc
    ensures Stacks(below, f, Act(f, m, taken).frames)
  {
    if LogFrame(f) {
      ActStacksLog(below, f, m, taken);
    } else {
      ActStacksElse(below, f, m, taken);
    }
  }

  lemma ActStacksLog(below: Frame, f: Frame, m: Move, taken: set<Resource>)
    requires LogFrame(f) && (Holds(below, AllocFlag) ==> AllocFlag in taken)
    requires f == LogRealloc ==> below == BootLog || below == BootAlloc
    ensures Stacks(below, f, Act(f, m, taken).frames)
  {
  }

  lemma ActStacksElse(below: Frame, f: Frame, m: Move, taken: set<Resource>)
    requires !LogFrame(f)
    ensures Stacks(below, f, Act(f, m, taken).frames)
  {
  }

  lemma StepShaped(s: State, t: nat, m: Move, u: nat)
    requires Safe(s) && u < |s.threads|
    ensures Shaped(Step(s, t, m).threads[u])
  {
    hide Act, Stacks, Calls;
    assert Shaped(s.threads[u]);
    if t == u && s.threads[t] != [] {
      var st := s.threads[t];
      var n := |st| - 1;
      var e := Act(st[n], m, s.taken);
      assert Exclusive(s, AllocFlag);
      if n > 0 {
        assert Holds(st[n - 1], AllocFlag) ==> HeldAt(s, AllocFlag, t, n - 1);
        ActStacks(st[n - 1], st[n], m, s.taken);
      } else {
        ActStacks(BootLog, st[n], m, s.taken);
      }
      ReplaceShaped(st, e.frames);
    }
  }

  lemma ReplaceShaped(st: seq<Frame>, frames: seq<Frame>)
    requires Shaped(st) && st != []
    requires Stacks(if |st| > 1 then st[|st| - 2] else BootLog, st[|st| - 1], frames)
    ensures Shaped(st[..|st| - 1] + frames)
  {
    var n := |st| - 1;
    var st' := st[..n] + frames;
    forall k | 0 < k < |st'|
      ensures Calls(st'[k - 1], st'[k])
      ensures st'[k] == LogRealloc ==> st'[k - 1] == BootLog || st'[k - 1] == BootAlloc
    {
      assert k < n ==> st'[k] == st[k] && st'[k - 1] == st[k - 1] && Calls(st[k - 1], st[k]);
      assert k == n ==> st'[k - 1] == st[n - 1] && st'[k] == frames[0] && Calls(st[n - 1], st[n]);
      assert k > n ==> k == n + 1 && st'[k - 1] == frames[0] && st'[k] == frames[1];
    }
  }

  lemma StepSafe(s: State, t: nat, m: Move)
    requires Safe(s)
    ensures Safe(Step(s, t, m))
  {
    var s' := Step(s, t, m);
    forall r ensures Exclusive(s', r) { StepExclusive(s, t, m, r); }
    forall u | 0 <= u < |s'.threads| ensures Shaped(s'.threads[u]) { StepShaped(s, t, m, u); }
  }

  /** Mutual exclusion over whole runs: whatever the interleaving, each lock and each flag
      is held by at most one activation, and is marked taken exactly while it is held. */
  lemma {:induction false} RunSafe(s: State, schedule: seq<(nat, Move)>)
    requires Safe(s)
    ensures Safe(Run(s, schedule))
    decreases |schedule|
  {
    if schedule != [] {
      StepSafe(s, schedule[0].0, schedule[0].1);
      RunSafe(Step(s, schedule[0].0, schedule[0].1), schedule[1..]);
    }
  }

  // ---------- no deadlock ----------

  predicate Active(s: State, t: nat)
  {
    t < |s.threads| && s.threads[t] != []
  }

  function Top(s: State, t: nat): Frame
    requires Active(s, t)
  {
    s.threads[t][|s.threads[t]| - 1]
  }

  predicate Blocked(s: State, t: nat)
  {
    Active(s, t) && Stuck(Top(s, t), s.taken)
  }

  /** t spins on a lock that thread u holds in activation k. */
  predicate WaitsFor(s: State, t: nat, u: nat, k: nat)
  {
    Active(s, t) && Wanted(Top(s, t)).Some? && HeldAt(s, Wanted(Top(s, t)).value, u, k)
  }

  /** The order in which locks are taken, as a rank of the frames that spin. */
  function Rank(f: Frame): nat
  {
    match f
    case BootPublic | DumpPublic => 4
    case BootInternal => 3
    case AllocAcquire => 2
    case LogAcquire | HeapAcquire => 1
    case _ => 0
  }

  /** The highest rank a thread can spin at inside a call made by f. */
  function Reach(f: Frame): nat
  {
    match f
    case LogEnter | LogBody | LogGrow | LogRelease | AllocMark | AllocUnmark | BootCopy | Halted => 0
    case LogAcquire | AllocBody | HeapAcquire | HeapBody => 1
    case LogRealloc | AllocAcquire | BootAlloc | BootLog => 2
    case BootInternal => 3
    case BootPublic | DumpPublic => 4
  }

  lemma {:induction false} TopReach(st: seq<Frame>, k: nat)
    requires Shaped(st) && k < |st|
    ensures Rank(st[|st| - 1]) <= Reach(st[k])
    decreases |st| - k
  {
    if k + 1 < |st| {
      TopReach(st, k + 1);
      assert Calls(st[k], st[k + 1]);
    }
  }

  lemma HeapNeverContended(s: State, t: nat)
    requires Safe(s) && Active(s, t)
    ensures Top(s, t) == HeapAcquire ==> !Blocked(s, t)
  {
    if Top(s, t) == HeapAcquire {
      assert HeldAt(s, KmallocLock, t, |s.threads[t]| - 1);
      InsideKmalloc(s, t, |s.threads[t]| - 1);
    }
  }

  /** Waiting descends in rank: a thread never waits for itself, and whoever it waits for
      spins, if at all, at a strictly lower rank. */
  lemma WaitDescends(s: State, t: nat, u: nat, k: nat)
    requires Safe(s) && WaitsFor(s, t, u, k)
    ensures t != u
    ensures Active(s, u) && Rank(Top(s, u)) < Rank(Top(s, t))
  {
    var f := Top(s, t);
    var n := |s.threads[t]| - 1;
    TopReach(s.threads[u], k);
    assert f != HeapAcquire by {
      HeapNeverContended(s, t);
      assert Exclusive(s, Wanted(f).value);
    }
    if f == LogAcquire {
      assert HeldAt(s, LogFlag, t, n);
      assert Exclusive(s, LogFlag);
      assert Holds(s.threads[u][k], LogFlag) ==> HeldAt(s, LogFlag, u, k);
    }
  }

  /** Each thread of the chain waits for the next. */
  ghost predicate WaitChain(s: State, chain: seq<nat>)
  {
    |chain| > 1 ==> (exists k :: WaitsFor(s, chain[0], chain[1], k)) && WaitChain(s, chain[1..])
  }

  lemma {:induction false} ChainDescends(s: State, chain: seq<nat>)
    requires Safe(s) && WaitChain(s, chain) && |chain| > 1
    ensures Active(s, chain[0]) && Active(s, chain[|chain| - 1])
    ensures Rank(Top(s, chain[|chain| - 1])) + |chain| - 1 <= Rank(Top(s, chain[0]))
    decreases |chain|
  {
    var k :| WaitsFor(s, chain[0], chain[1], k);
    WaitDescends(s, chain[0], chain[1], k);
    if |chain| > 2 {
      ChainDescends(s, chain[1..]);
    }
  }

  /** No reachable state has a circular wait, and no chain of waiting threads is longer
      than four links. */
  lemma NoDeadlock(n: nat, schedule: seq<(nat, Move)>, chain: seq<nat>)
    requires WaitChain(Run(Initial(n), schedule), chain) && |chain| > 1
    ensures chain[0] != chain[|chain| - 1]
    ensures |chain| <= 5
  {
    InitialSafe(n);
    RunSafe(Initial(n), schedule);
    ChainDescends(Run(Initial(n), schedule), chain);
  }

  /** Behind every active thread there is one that is not blocked. */
  lemma {:induction false} SomeoneRuns(s: State, t: nat) returns (u: nat)
    requires Safe(s) && Active(s, t)
    ensures Active(s, u) && !Blocked(s, u)
    decreases Rank(Top(s, t))
  {
    u := t;
    if Blocked(s, t) {
      var r := Wanted(Top(s, t)).value;
      assert Exclusive(s, r);
      var v, k :| HeldAt(s, r, v, k);
      assert WaitsFor(s, t, v, k);
      WaitDescends(s, t, v, k);
      u := SomeoneRuns(s, v);
    }
  }

  // ---------- everything drains ----------

  /** How many more steps an activation has at most, counting those it calls. */
  function Weight(f: Frame): nat
  {
    match f
    case LogRelease | AllocUnmark | BootLog => 1
    case LogBody | AllocBody | BootCopy | DumpPublic => 2
    case LogAcquire | LogRealloc | AllocMark | HeapBody | BootInternal => 3
    case LogEnter | AllocAcquire | HeapAcquire | BootPublic => 4
    case BootAlloc => 5
    case LogGrow => 8
    case Halted => 0
  }

  function StackWeight(st: seq<Frame>): nat
  {
    if st == [] then 0 else StackWeight(st[..|st| - 1]) + Weight(st[|st| - 1])
  }

  function TotalWeight(threads: seq<seq<Frame>>): nat
  {
    if threads == [] then 0 else StackWeight(threads[0]) + TotalWeight(threads[1..])
  }

  lemma {:induction false} TotalWeightUpdate(threads: seq<seq<Frame>>, t: nat, st: seq<Frame>)
    requires t < |threads|
    ensures TotalWeight(threads[t := st]) + StackWeight(threads[t]) == TotalWeight(threads) + StackWeight(st)
  {
    if t == 0 {
      assert threads[t := st][1..] == threads[1..];
    } else {
      assert threads[t := st][1..] == threads[1..][t - 1 := st];
      TotalWeightUpdate(threads[1..], t - 1, st);
    }
  }

  ghost predicate NoPanic(s: State)
  {
    forall t | 0 <= t < |s.threads| :: Halted !in s.threads[t]
  }

  lemma StackWeightAppend(st: seq<Frame>, f: Frame)
    ensures StackWeight(st + [f]) == StackWeight(st) + Weight(f)
  {
    assert (st + [f])[..|st|] == st;
  }

  lemma ActDescends(f: Frame, taken: set<Resource>)
    requires f != Halted
    requires !Stuck(f, taken)
    ensures var frames := Act(f, Advance, taken).frames;
            || frames == []
            || (|frames| == 1 && frames[0] != Halted && Weight(frames[0]) < Weight(f))
            || (frames == [LogRealloc, AllocAcquire] && f == LogGrow)
    ensures Weight(f) > 0
  {
  }

  lemma StackDescends(st: seq<Frame>, taken: set<Resource>)
    requires st != [] && Halted !in st
    requires !Stuck(st[|st| - 1], taken)
    ensures var st' := st[..|st| - 1] + Act(st[|st| - 1], Advance, taken).frames;
            StackWeight(st') < StackWeight(st) && Halted !in st'
  {
    hide Act;
    var n := |st| - 1;
    assert st[n] in st;
    ActDescends(st[n], taken);
    var frames := Act(st[n], Advance, taken).frames;
    assert forall f | f in st[..n] :: f in st;
    if frames == [] {
      assert st[..n] + frames == st[..n];
    } else if |frames| == 1 {
      assert frames == [frames[0]];
      StackWeightAppend(st[..n], frames[0]);
    } else {
      assert st[..n] + frames == st[..n] + [LogRealloc] + [AllocAcquire];
      StackWeightAppend(st[..n], LogRealloc);
      StackWeightAppend(st[..n] + [LogRealloc], AllocAcquire);
    }
  }

  lemma AdvanceDescends(s: State, t: nat)
    requires NoPanic(s) && Active(s, t) && !Blocked(s, t)
    ensures NoPanic(Step(s, t, Advance))
    ensures TotalWeight(Step(s, t, Advance).threads) < TotalWeight(s.threads)
  {
    StackDescends(s.threads[t], s.taken);
    TotalWeightUpdate(s.threads, t, Step(s, t, Advance).threads[t]);
  }

  predicate Idle(s: State)
  {
    forall t | 0 <= t < |s.threads| :: s.threads[t] == []
  }

  lemma IdleReleased(s: State)
    requires Safe(s) && Idle(s)
    ensures s.taken == {}
  {
    forall r
      ensures r !in s.taken
    {
      assert Exclusive(s, r);
    }
  }

  ghost predicate Advances(schedule: seq<(nat, Move)>)
  {
    forall i | 0 <= i < |schedule| :: schedule[i].1 == Advance
  }

  /** From every state without a panic, the threads can all run to completion, starting
      nothing new, and then no lock or flag is left taken. */
  lemma {:induction false} Drains(s: State) returns (schedule: seq<(nat, Move)>)
    requires Safe(s) && NoPanic(s)
    ensures Advances(schedule)
    ensures Idle(Run(s, schedule)) && Run(s, schedule).taken == {}
    decreases TotalWeight(s.threads)
  {
    if Idle(s) {
      schedule := [];
      IdleReleased(s);
    } else {
      var t :| 0 <= t < |s.threads| && s.threads[t] != [];
      var u := SomeoneRuns(s, t);
      AdvanceDescends(s, u);
      StepSafe(s, u, Advance);
      var rest := Drains(Step(s, u, Advance));
      schedule := [(u, Advance)] + rest;
      assert schedule[1..] == rest;
    }
  }

  /** A schedule in which threads only go on, and only when they are not blocked. */
  ghost predicate Progresses(s: State, schedule: seq<(nat, Move)>)
    decreases |schedule|
  {
    schedule == [] ||
    (var (t, m) := schedule[0];
     m == Advance && Active(s, t) && !Blocked(s, t) && Progresses(Step(s, t, m), schedule[1..]))
  }

  /** No such schedule can go on forever, and wherever one cannot go on every thread has run to
      completion and no lock or flag is left taken. */
  lemma {:induction false} EveryScheduleDrains(s: State, schedule: seq<(nat, Move)>)
    requires Safe(s) && NoPanic(s) && Progresses(s, schedule)
    ensures |schedule| <= TotalWeight(s.threads)
    ensures var s' := Run(s, schedule);
            (exists t :: Active(s', t) && !Blocked(s', t)) || (Idle(s') && s'.taken == {})
    decreases |schedule|
  {
    if schedule == [] {
      if Idle(s) {
        IdleReleased(s);
      } else {
        var t: nat :| t < |s.threads| && s.threads[t] != [];
        var u := SomeoneRuns(s, t);
      }
    } else {
      var t := schedule[0].0;
      AdvanceDescends(s, t);
      StepSafe(s, t, Advance);
      EveryScheduleDrains(Step(s, t, Advance), schedule[1..]);
    }
  }
}
