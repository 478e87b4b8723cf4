/** The protocol does its work: logging takes its locks and writes, the log grows its buffer through
    the allocator, the allocator enters the heap, and each gives back what it took. A thread moves
    with the activations below the current one as they are, among any other threads. */
module LockWork {
  import opened Bytes
  import opened LockProtocol

  // ---------- one thread moving ----------

  /** Thread t alone makes these moves. */
  function By(t: nat, moves: seq<Move>): seq<(nat, Move)>
  {
    seq(|moves|, i requires 0 <= i < |moves| => (t, moves[i]))
  }

  /** The state in which thread t has the given stack. */
  function With(s: State, t: nat, st: seq<Frame>, taken: set<Resource>): State
    requires t < |s.threads|
  {
    State(taken, s.threads[t := st])
  }

  /** Moving on from s, thread t gets from activation f, on top of `below`, to `st` on top of it,
      with these resources taken. */
  ghost predicate Leads(
    s: State, t: nat, below: seq<Frame>, f: Frame, moves: seq<Move>, st: seq<Frame>, taken: set<Resource>)
  {
    && t < |s.threads|
    && Run(With(s, t, below + [f], s.taken), By(t, moves)) == With(s, t, below + st, taken)
  }

  /** What the moves make of a stack and of the resources. */
  function Solo(st: seq<Frame>, taken: set<Resource>, moves: seq<Move>): (seq<Frame>, set<Resource>)
    decreases |moves|
  {
    if moves == [] || st == [] then (st, taken)
    else
      var e := Act(st[|st| - 1], moves[0], taken);
      Solo(st[..|st| - 1] + e.frames, e.taken, moves[1..])
  }

  /** None of the moves finds the stack empty. */
  predicate Busy(st: seq<Frame>, taken: set<Resource>, moves: seq<Move>)
    decreases |moves|
  {
    moves == [] ||
    (st != [] &&
     var e := Act(st[|st| - 1], moves[0], taken);
     Busy(st[..|st| - 1] + e.frames, e.taken, moves[1..]))
  }

  lemma {:induction false} SoloRuns(
    s: State, t: nat, below: seq<Frame>, st: seq<Frame>, taken: set<Resource>, moves: seq<Move>)
    requires t < |s.threads| && Busy(st, taken, moves)
    ensures var (st', taken') := Solo(st, taken, moves);
            Run(With(s, t, below + st, taken), By(t, moves)) == With(s, t, below + st', taken')
    decreases |moves|
  {
    hide Act;
    if moves != [] {
      var whole, n := below + st, |st| - 1;
      var e := Act(st[n], moves[0], taken);
      assert whole[|whole| - 1] == st[n] && whole[..|whole| - 1] == below + st[..n];
      assert below + st[..n] + e.frames == below + (st[..n] + e.frames);
      assert Step(With(s, t, whole, taken), t, moves[0]) == With(s, t, below + (st[..n] + e.frames), e.taken);
      assert By(t, moves)[1..] == By(t, moves[1..]);
      SoloRuns(s, t, below, st[..n] + e.frames, e.taken, moves[1..]);
    }
  }

  /** One move on, by definition. */
  lemma SoloOn(below: seq<Frame>, f: Frame, taken: set<Resource>, m: Move, moves: seq<Move>)
    ensures var e := Act(f, m, taken);
            && Solo(below + [f], taken, [m] + moves) == Solo(below + e.frames, e.taken, moves)
            && (Busy(below + [f], taken, [m] + moves) <==> Busy(below + e.frames, e.taken, moves))
  {
    hide Act;
    var st := below + [f];
    assert st[..|st| - 1] == below && st[|st| - 1] == f && ([m] + moves)[1..] == moves;
  }

  lemma SoloLeads(s: State, t: nat, below: seq<Frame>, f: Frame, moves: seq<Move>)
    requires t < |s.threads| && Busy([f], s.taken, moves)
    ensures Leads(s, t, below, f, moves, Solo([f], s.taken, moves).0, Solo([f], s.taken, moves).1)
  {
    SoloRuns(s, t, below, [f], s.taken, moves);
  }

  /** No move at all. */
  lemma SoloDone(st: seq<Frame>, taken: set<Resource>)
    ensures Solo(st, taken, []) == (st, taken) && Busy(st, taken, [])
  {
  }

  /** A move that replaces the activation on top, or ends it, and then the others. */
  lemma SoloNext(
    st: seq<Frame>, f: Frame, taken: set<Resource>, m: Move,
    frames: seq<Frame>, taken': set<Resource>, moves: seq<Move>)
    requires Act(f, m, taken).frames == frames && Act(f, m, taken).taken == taken'
    ensures Solo(st + [f], taken, [m] + moves) == Solo(st + frames, taken', moves)
    ensures Busy(st + [f], taken, [m] + moves) <==> Busy(st + frames, taken', moves)
  {
    hide Act;
    SoloOn(st, f, taken, m, moves);
  }

  /** One move of the activation on top. */
  lemma OneMove(s: State, t: nat, below: seq<Frame>, f: Frame, m: Move)
    requires t < |s.threads|
    ensures Leads(s, t, below, f, [m], Act(f, m, s.taken).frames, Act(f, m, s.taken).taken)
  {
    hide Act;
    var e := Act(f, m, s.taken);
    assert [m] == [m] + [] && [] + [f] == [f] && [] + e.frames == e.frames;
    SoloOn([], f, s.taken, m, []);
    SoloLeads(s, t, below, f, [m]);
  }

  /** Where moves lead is determined. */
  lemma LeadsOnce(
    s: State, t: nat, below: seq<Frame>, f: Frame, moves: seq<Move>,
    st: seq<Frame>, k: set<Resource>, st': seq<Frame>, k': set<Resource>)
    requires Leads(s, t, below, f, moves, st, k) && Leads(s, t, below, f, moves, st', k')
    ensures st == st' && k == k'
  {
    assert With(s, t, below + st, k).threads[t] == below + st;
    assert With(s, t, below + st', k').threads[t] == below + st';
    assert st == (below + st)[|below|..] && st' == (below + st')[|below|..];
  }

  // ---------- starting, waiting, panicking ----------

  lemma Starts(s: State, t: nat, f: Frame)
    requires t < |s.threads| && s.threads[t] == []
    ensures f in {LogEnter, AllocAcquire, BootAlloc, DumpPublic} ==> Step(s, t, Start(f)) == With(s, t, [f], s.taken)
  {
  }

  /** Where a lock is taken, which lock it is, and what follows. */
  function Next(f: Frame): Option<(Resource, Frame)>
  {
    match f
    case LogAcquire => Some((InternalLock, LogBody))
    case AllocAcquire => Some((KmallocLock, AllocMark))
    case HeapAcquire => Some((HeapLock, HeapBody))
    case BootPublic => Some((PublicLock, BootInternal))
    case BootInternal => Some((InternalLock, BootCopy))
    case DumpPublic => Some((PublicLock, BootLog))
    case _ => None
  }

  /** Whoever spins stays while the lock is taken, and takes it when it is free. */
  lemma Spins(s: State, t: nat, below: seq<Frame>, f: Frame)
    requires t < |s.threads| && Next(f).Some?
    ensures var (r, g) := Next(f).value;
            if r in s.taken then Leads(s, t, below, f, [Advance], [f], s.taken)
            else Leads(s, t, below, f, [Advance], [g], s.taken + {r})
  {
    OneMove(s, t, below, f, Advance);
  }

  /** A panic stops the thread for good. */
  lemma Panics(s: State, t: nat, below: seq<Frame>, f: Frame, m: Move)
    requires t < |s.threads|
    ensures f != Halted ==> Leads(s, t, below, f, [Panic], [f, Halted], s.taken)
    ensures Leads(s, t, below, Halted, [m], [Halted], s.taken)
  {
    OneMove(s, t, below, f, Panic);
    OneMove(s, t, below, Halted, m);
  }

  // ---------- klog ----------

  /** klog may be called from the allocator, from the heap and while booting. */
  lemma KlogCalled(s: State, t: nat, below: seq<Frame>, f: Frame)
    requires t < |s.threads| && f in {AllocBody, HeapBody, BootLog, BootAlloc}
    ensures Leads(s, t, below, f, [Log], [f, LogEnter], s.taken)
  {
    OneMove(s, t, below, f, Log);
  }

  /** A message is dropped if and only if one is being logged; otherwise logging is in progress now. */
  lemma KlogDropsIff(s: State, t: nat, below: seq<Frame>)
    requires t < |s.threads|
    ensures Leads(s, t, below, LogEnter, [Advance], [], s.taken) <==> LogFlag in s.taken
    ensures LogFlag !in s.taken ==> Leads(s, t, below, LogEnter, [Advance], [LogAcquire], s.taken + {LogFlag})
  {
    OneMove(s, t, below, LogEnter, Advance);
    var e := Act(LogEnter, Advance, s.taken);
    if Leads(s, t, below, LogEnter, [Advance], [], s.taken) {
      LeadsOnce(s, t, below, LogEnter, [Advance], [], s.taken, e.frames, e.taken);
    }
  }

  /** If nothing is being logged and the lock is free, two moves reach the body with the flag and the
      lock held by this activation. */
  lemma KlogLogs(s: State, t: nat, below: seq<Frame>)
    requires t < |s.threads| && LogFlag !in s.taken && InternalLock !in s.taken
    ensures Leads(s, t, below, LogEnter, [Advance, Advance], [LogBody], s.taken + {LogFlag, InternalLock})
    ensures var s' := With(s, t, below + [LogBody], s.taken + {LogFlag, InternalLock});
            HeldAt(s', LogFlag, t, |below|) && HeldAt(s', InternalLock, t, |below|)
  {
    KlogSolo(s.taken);
    SoloLeads(s, t, below, LogEnter, [Advance, Advance]);
  }

  /** And two more end it, with both released. */
  lemma KlogEnds(s: State, t: nat, below: seq<Frame>)
    requires t < |s.threads| && LogFlag in s.taken && InternalLock in s.taken
    ensures Leads(s, t, below, LogBody, [Advance, Advance], [], s.taken - {LogFlag, InternalLock})
  {
    var k := s.taken - {LogFlag, InternalLock};
    KlogSolo(k);
    assert k + {LogFlag, InternalLock} == s.taken;
    SoloLeads(s, t, below, LogBody, [Advance, Advance]);
  }

  /** The four moves of a message that is logged. */
  lemma KlogSolo(k: set<Resource>)
    requires LogFlag !in k && InternalLock !in k
    ensures Busy([LogEnter], k, [Advance, Advance])
    ensures Solo([LogEnter], k, [Advance, Advance]) == ([LogBody], k + {LogFlag, InternalLock})
    ensures Busy([LogBody], k + {LogFlag, InternalLock}, [Advance, Advance])
    ensures Solo([LogBody], k + {LogFlag, InternalLock}, [Advance, Advance]) == ([], k)
  {
    hide Solo, Busy;
    var k1, k2 := k + {LogFlag}, k + {LogFlag, InternalLock};
    assert k1 + {InternalLock} == k2 && k2 - {InternalLock} == k1 && k1 - {LogFlag} == k;
    assert [Advance, Advance] == [Advance] + [Advance] && [Advance] == [Advance] + [];
    assert forall f: Frame :: [] + [f] == [f];
    var none: seq<Frame> := [];
    assert none + none == none;
    SoloNext([], LogEnter, k, Advance, [LogAcquire], k1, [Advance]);
    SoloNext([], LogAcquire, k1, Advance, [LogBody], k2, []);
    SoloNext([], LogBody, k2, Advance, [LogRelease], k1, [Advance]);
    SoloNext([], LogRelease, k1, Advance, [], k, []);
    SoloDone([LogBody], k2);
    SoloDone([], k);
  }

  // ---------- growing the log ----------

  /** The log asks the allocator for room if and only if no allocation is in progress; if one is, it
      goes on without. */
  lemma GrowsIff(s: State, t: nat, below: seq<Frame>)
    requires t < |s.threads|
    ensures Leads(s, t, below, LogBody, [Other], [LogGrow], s.taken)
    ensures Leads(s, t, below, LogGrow, [Advance], [LogRealloc, AllocAcquire], s.taken) <==> AllocFlag !in s.taken
    ensures AllocFlag in s.taken ==> Leads(s, t, below, LogGrow, [Advance], [LogBody], s.taken)
  {
    OneMove(s, t, below, LogBody, Other);
    OneMove(s, t, below, LogGrow, Advance);
    var e := Act(LogGrow, Advance, s.taken);
    if Leads(s, t, below, LogGrow, [Advance], [LogRealloc, AllocAcquire], s.taken) {
      LeadsOnce(s, t, below, LogGrow, [Advance], [LogRealloc, AllocAcquire], s.taken, e.frames, e.taken);
    }
  }

  /** With the allocator's lock free, it gets into the allocator, and comes back to its body with
      nothing more taken than before. */
  lemma Grows(s: State, t: nat, below: seq<Frame>)
    requires t < |s.threads| && AllocFlag !in s.taken && KmallocLock !in s.taken
    ensures Leads(s, t, below, LogGrow, [Advance, Advance, Advance], [LogRealloc, AllocBody],
                  s.taken + {KmallocLock, AllocFlag})
    ensures Leads(s, t, below, LogGrow, [Advance, Advance, Advance, Advance, Advance, Advance], [LogBody], s.taken)
  {
    hide Solo, Busy, Leads, Act;
    GrowSolo(s.taken, []);
    GrowSolo(s.taken, [Advance, Advance, Advance]);
    BackSolo(s.taken);
    var in3, all := [Advance, Advance, Advance], [Advance, Advance, Advance, Advance, Advance, Advance];
    assert in3 + [] == in3 && in3 + in3 == all;
    SoloDone([LogRealloc, AllocBody], s.taken + {KmallocLock, AllocFlag});
    SoloLeads(s, t, below, LogGrow, in3);
    SoloLeads(s, t, below, LogGrow, all);
  }

  lemma GrowSolo(k: set<Resource>, more: seq<Move>)
    requires AllocFlag !in k && KmallocLock !in k
    ensures var moves, k2 := [Advance, Advance, Advance] + more, k + {KmallocLock, AllocFlag};
            && Solo([LogGrow], k, moves) == Solo([LogRealloc, AllocBody], k2, more)
            && (Busy([LogGrow], k, moves) <==> Busy([LogRealloc, AllocBody], k2, more))
  {
    hide Solo, Busy;
    var k1, k2 := k + {KmallocLock}, k + {KmallocLock, AllocFlag};
    assert k1 + {AllocFlag} == k2;
    var m1 := [Advance] + more;
    var m2 := [Advance] + m1;
    assert [Advance, Advance, Advance] + more == [Advance] + m2;
    assert [] + [LogGrow] == [LogGrow] && [] + [LogRealloc, AllocAcquire] == [LogRealloc] + [AllocAcquire];
    assert [LogRealloc] + [AllocBody] == [LogRealloc, AllocBody];
    SoloNext([], LogGrow, k, Advance, [LogRealloc, AllocAcquire], k, m2);
    SoloNext([LogRealloc], AllocAcquire, k, Advance, [AllocMark], k1, m1);
    SoloNext([LogRealloc], AllocMark, k1, Advance, [AllocBody], k2, more);
  }

  lemma BackSolo(k: set<Resource>)
    requires AllocFlag !in k && KmallocLock !in k
    ensures var moves, k2 := [Advance, Advance, Advance], k + {KmallocLock, AllocFlag};
            Solo([LogRealloc, AllocBody], k2, moves) == ([LogBody], k) && Busy([LogRealloc, AllocBody], k2, moves)
  {
    hide Solo, Busy;
    var k1, k2 := k + {KmallocLock}, k + {KmallocLock, AllocFlag};
    assert k2 - {AllocFlag} == k1 && k1 - {KmallocLock} == k;
    assert [Advance, Advance, Advance] == [Advance] + [Advance, Advance];
    assert [Advance, Advance] == [Advance] + [Advance] && [Advance] == [Advance] + [];
    assert [LogRealloc, AllocBody] == [LogRealloc] + [AllocBody] && [LogRealloc] + [] == [] + [LogRealloc];
    assert [] + [LogBody] == [LogBody];
    SoloNext([LogRealloc], AllocBody, k2, Advance, [AllocUnmark], k1, [Advance, Advance]);
    SoloNext([LogRealloc], AllocUnmark, k1, Advance, [], k, [Advance]);
    SoloNext([], LogRealloc, k, Advance, [LogBody], k, []);
    SoloDone([LogBody], k);
  }

  // ---------- kmalloc ----------

  /** While kmalloc_lock is free, so are the flag and the heap's lock. */
  lemma AllocatorFree(s: State)
    requires Safe(s) && KmallocLock !in s.taken
    ensures AllocFlag !in s.taken && HeapLock !in s.taken
  {
    assert Exclusive(s, KmallocLock) && Exclusive(s, AllocFlag) && Exclusive(s, HeapLock);
    if AllocFlag in s.taken {
      var t, k :| HeldAt(s, AllocFlag, t, k);
      assert HeldAt(s, KmallocLock, t, k);
    }
    if HeapLock in s.taken {
      var t, k :| HeldAt(s, HeapLock, t, k);
      assert HeldAt(s, KmallocLock, t, k);
    }
  }

  /** In every safe state with kmalloc_lock free, an allocation gets into the allocator and into the
      heap, holding the lock, the flag and the heap's lock; and it ends with all of them released. */
  lemma KmallocWorks(s: State, t: nat, below: seq<Frame>)
    requires Safe(s) && t < |s.threads| && KmallocLock !in s.taken
    ensures Leads(s, t, below, AllocAcquire, [Advance, Advance], [AllocBody], s.taken + {KmallocLock, AllocFlag})
    ensures Leads(s, t, below, AllocAcquire, [Advance, Advance, Other, Advance], [HeapBody],
                  s.taken + {KmallocLock, AllocFlag, HeapLock})
    ensures Leads(s, t, below, AllocAcquire, [Advance, Advance, Other, Advance, Advance, Advance, Advance], [], s.taken)
  {
    hide Solo, Busy, Leads, Act;
    AllocatorFree(s);
    var k := s.taken;
    var enter, heap, out := [Advance, Advance], [Other, Advance], [Advance, Advance, Advance];
    EnterSolo(k, []);
    EnterSolo(k, heap);
    EnterSolo(k, heap + out);
    HeapSolo(k, []);
    HeapSolo(k, out);
    LeaveSolo(k);
    assert enter + [] == enter && enter + heap == [Advance, Advance, Other, Advance] && heap + [] == heap;
    assert enter + (heap + out) == [Advance, Advance, Other, Advance, Advance, Advance, Advance];
    SoloDone([AllocBody], k + {KmallocLock, AllocFlag});
    SoloDone([HeapBody], k + {KmallocLock, AllocFlag, HeapLock});
    SoloLeads(s, t, below, AllocAcquire, enter);
    SoloLeads(s, t, below, AllocAcquire, enter + heap);
    SoloLeads(s, t, below, AllocAcquire, enter + (heap + out));
  }

  lemma EnterSolo(k: set<Resource>, more: seq<Move>)
    requires KmallocLock !in k && AllocFlag !in k
    ensures var moves, k2 := [Advance, Advance] + more, k + {KmallocLock, AllocFlag};
            && Solo([AllocAcquire], k, moves) == Solo([AllocBody], k2, more)
            && (Busy([AllocAcquire], k, moves) <==> Busy([AllocBody], k2, more))
  {
    hide Solo, Busy;
    var k1, k2 := k + {KmallocLock}, k + {KmallocLock, AllocFlag};
    assert k1 + {AllocFlag} == k2;
    assert [Advance, Advance] + more == [Advance] + ([Advance] + more);
    assert forall f: Frame :: [] + [f] == [f];
    SoloNext([], AllocAcquire, k, Advance, [AllocMark], k1, [Advance] + more);
    SoloNext([], AllocMark, k1, Advance, [AllocBody], k2, more);
  }

  lemma HeapSolo(k: set<Resource>, more: seq<Move>)
    requires HeapLock !in k
    ensures var moves := [Other, Advance] + more;
            var k2, k3 := k + {KmallocLock, AllocFlag}, k + {KmallocLock, AllocFlag, HeapLock};
            && Solo([AllocBody], k2, moves) == Solo([HeapBody], k3, more)
            && (Busy([AllocBody], k2, moves) <==> Busy([HeapBody], k3, more))
  {
    hide Solo, Busy;
    var k2, k3 := k + {KmallocLock, AllocFlag}, k + {KmallocLock, AllocFlag, HeapLock};
    assert k2 + {HeapLock} == k3;
    assert [Other, Advance] + more == [Other] + ([Advance] + more);
    assert forall f: Frame :: [] + [f] == [f];
    SoloNext([], AllocBody, k2, Other, [HeapAcquire], k2, [Advance] + more);
    SoloNext([], HeapAcquire, k2, Advance, [HeapBody], k3, more);
  }

  lemma LeaveSolo(k: set<Resource>)
    requires KmallocLock !in k && AllocFlag !in k && HeapLock !in k
    ensures var moves, k3 := [Advance, Advance, Advance], k + {KmallocLock, AllocFlag, HeapLock};
            Solo([HeapBody], k3, moves) == ([], k) && Busy([HeapBody], k3, moves)
  {
    hide Solo, Busy;
    var k1, k2, k3 := k + {KmallocLock}, k + {KmallocLock, AllocFlag}, k + {KmallocLock, AllocFlag, HeapLock};
    assert k3 - {HeapLock} == k2 && k2 - {AllocFlag} == k1 && k1 - {KmallocLock} == k;
    assert [Advance, Advance, Advance] == [Advance] + [Advance, Advance];
    assert [Advance, Advance] == [Advance] + [Advance] && [Advance] == [Advance] + [];
    assert forall f: Frame :: [] + [f] == [f];
    var none: seq<Frame> := [];
    assert none + none == none;
    SoloNext([], HeapBody, k3, Advance, [AllocBody], k2, [Advance, Advance]);
    SoloNext([], AllocBody, k2, Advance, [AllocUnmark], k1, [Advance]);
    SoloNext([], AllocUnmark, k1, Advance, [], k, []);
    SoloDone([], k);
  }

  /** kmalloc_init resets the heap's lock from inside the allocator, where it is free anyway. */
  lemma ResetHarmless(s: State, t: nat, below: seq<Frame>)
    requires Safe(s) && t < |s.threads| && s.threads[t] == below + [AllocBody]
    ensures Step(s, t, Reset) == s
  {
    var n := |below|;
    assert s.threads[t][n] == AllocBody && s.threads[t][..n] == below;
    InsideKmalloc(s, t, n);
    assert s.taken - {HeapLock} == s.taken;
  }

  // ---------- klog_init_postboot ----------

  /** It allocates as often as it likes. */
  lemma BootAllocates(s: State, t: nat, below: seq<Frame>)
    requires t < |s.threads|
    ensures Leads(s, t, below, BootAlloc, [Other], [BootAlloc, AllocAcquire], s.taken)
  {
    OneMove(s, t, below, BootAlloc, Other);
  }

  /** With both locks free it gets to the switch of buffers holding them; then it
      logs under the public one, and ends with both released. */
  lemma BootWorks(s: State, t: nat, below: seq<Frame>)
    requires t < |s.threads| && PublicLock !in s.taken && InternalLock !in s.taken
    ensures Leads(s, t, below, BootAlloc, [Advance, Advance, Advance], [BootCopy], s.taken + {PublicLock, InternalLock})
    ensures Leads(s, t, below, BootAlloc, [Advance, Advance, Advance, Advance], [BootLog], s.taken + {PublicLock})
    ensures Leads(s, t, below, BootAlloc, [Advance, Advance, Advance, Advance, Advance], [], s.taken)
  {
    hide Solo, Busy, Leads, Act;
    var three := [Advance, Advance, Advance];
    BootSolo(s.taken, []);
    BootSolo(s.taken, [Advance]);
    BootSolo(s.taken, [Advance, Advance]);
    SwitchSolo(s.taken, []);
    SwitchSolo(s.taken, [Advance]);
    BootEndSolo(s.taken);
    assert three + [] == three && three + [Advance] == [Advance, Advance, Advance, Advance];
    assert three + [Advance, Advance] == [Advance, Advance, Advance, Advance, Advance];
    assert [Advance] + [] == [Advance] && [Advance] + [Advance] == [Advance, Advance];
    SoloDone([BootCopy], s.taken + {PublicLock, InternalLock});
    SoloDone([BootLog], s.taken + {PublicLock});
    SoloLeads(s, t, below, BootAlloc, three);
    SoloLeads(s, t, below, BootAlloc, three + [Advance]);
    SoloLeads(s, t, below, BootAlloc, three + [Advance, Advance]);
  }

  lemma BootSolo(k: set<Resource>, more: seq<Move>)
    requires PublicLock !in k && InternalLock !in k
    ensures var moves, k2 := [Advance, Advance, Advance] + more, k + {PublicLock, InternalLock};
            && Solo([BootAlloc], k, moves) == Solo([BootCopy], k2, more)
            && (Busy([BootAlloc], k, moves) <==> Busy([BootCopy], k2, more))
  {
    hide Solo, Busy;
    var k1, k2 := k + {PublicLock}, k + {PublicLock, InternalLock};
    assert k1 + {InternalLock} == k2;
    var m1 := [Advance] + more;
    var m2 := [Advance] + m1;
    assert [Advance, Advance, Advance] + more == [Advance] + m2;
    assert forall f: Frame :: [] + [f] == [f];
    SoloNext([], BootAlloc, k, Advance, [BootPublic], k, m2);
    SoloNext([], BootPublic, k, Advance, [BootInternal], k1, m1);
    SoloNext([], BootInternal, k1, Advance, [BootCopy], k2, more);
  }

  lemma SwitchSolo(k: set<Resource>, more: seq<Move>)
    requires InternalLock !in k
    ensures var moves, k1, k2 := [Advance] + more, k + {PublicLock}, k + {PublicLock, InternalLock};
            && Solo([BootCopy], k2, moves) == Solo([BootLog], k1, more)
            && (Busy([BootCopy], k2, moves) <==> Busy([BootLog], k1, more))
  {
    hide Solo, Busy;
    var k1, k2 := k + {PublicLock}, k + {PublicLock, InternalLock};
    assert k2 - {InternalLock} == k1;
    assert forall f: Frame :: [] + [f] == [f];
    SoloNext([], BootCopy, k2, Advance, [BootLog], k1, more);
  }

  lemma BootEndSolo(k: set<Resource>)
    requires PublicLock !in k
    ensures Solo([BootLog], k + {PublicLock}, [Advance]) == ([], k) && Busy([BootLog], k + {PublicLock}, [Advance])
  {
    hide Solo, Busy;
    assert k + {PublicLock} - {PublicLock} == k && [Advance] == [Advance] + [] && [] + [BootLog] == [BootLog];
    var none: seq<Frame> := [];
    assert none + none == none;
    SoloNext([], BootLog, k + {PublicLock}, Advance, [], k, []);
    SoloDone([], k);
  }
}
