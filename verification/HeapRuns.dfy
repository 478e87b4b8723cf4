/** Safety of whole runs of the heap: what holds of every state reached by any sequence
    of malloc, free, realloc and add_region calls that a correct client can make. */
module HeapRuns {
  import opened Arena
  import opened HeapSpec

  // ---------- what the invariant means ----------

  /** Following split_right from p covers the bytes up to `end`, one tag after another. */
  ghost predicate Chain(spans: map<Addr, Span>, p: Addr, end: Addr)
    decreases end - p
  {
    && p in spans && spans[p].realSize > 0 && p + spans[p].realSize <= end
    && (if spans[p].right == 0 then p + spans[p].realSize == end
        else spans[p].right == p + spans[p].realSize && Chain(spans, spans[p].right, end))
  }

  lemma {:induction false} ChainFrom(a: State, b: Addr, p: Addr)
    requires Good(a) && p in a.spans && p in a.owner && a.owner[p] == b && b in a.regions
    ensures Chain(a.spans, p, b + a.regions[b].bytes)
    decreases b + a.regions[b].bytes - p
  {
    assert TagShaped(a.spans, a.regions, a.owner, p);
    if a.spans[p].right != 0 {
      ChainFrom(a, b, a.spans[p].right);
    }
  }

  /** Each region is exactly tiled by its split chain. */
  lemma RegionTiled(a: State, b: Addr)
    requires Good(a) && b in a.regions
    ensures Chain(a.spans, b, b + a.regions[b].bytes)
  {
    assert RegionShaped(a.spans, a.regions, a.owner, b);
    ChainFrom(a, b, b);
  }

  lemma {:induction false} ByteCovered(a: State, b: Addr, p: Addr, x: Addr) returns (t: Addr)
    requires Good(a) && p in a.spans && p in a.owner && a.owner[p] == b && b in a.regions
    requires p <= x < b + a.regions[b].bytes
    ensures t in a.spans && t <= x < t + a.spans[t].realSize
    decreases b + a.regions[b].bytes - p
  {
    assert TagShaped(a.spans, a.regions, a.owner, p);
    if x < p + a.spans[p].realSize {
      t := p;
    } else {
      t := ByteCovered(a, b, a.spans[p].right, x);
    }
  }

  /** Every byte of every region belongs to exactly one tag. */
  lemma ByteBelongs(a: State, b: Addr, x: Addr)
    requires Good(a) && b in a.regions && b <= x < b + a.regions[b].bytes
    ensures exists t :: t in a.spans && t <= x < t + a.spans[t].realSize
    ensures forall t, u | t in a.spans && u in a.spans
      && t <= x < t + a.spans[t].realSize && u <= x < u + a.spans[u].realSize :: t == u
  {
    assert RegionShaped(a.spans, a.regions, a.owner, b);
    var t := ByteCovered(a, b, b, x);
    forall t, u | t in a.spans && u in a.spans
      && t <= x < t + a.spans[t].realSize && u <= x < u + a.spans[u].realSize
      ensures t == u
    {
      assert TagsApart(a.spans, t, u) && TagsApart(a.spans, u, t);
    }
  }

  /** A live payload lies inside its own tag, away from every other payload and from
      every header. */
  lemma PayloadApart(a: State, x: Addr, y: Addr, p: Addr)
    requires Good(a) && x in a.live && p in a.spans
    ensures x - HEADER in a.spans && x + a.live[x] <= x - HEADER + a.spans[x - HEADER].realSize
    ensures x + a.live[x] <= p || p + HEADER <= x
    ensures y in a.live && y != x ==> x + a.live[x] <= y || y + a.live[y] <= x
  {
    assert BlockHeld(a.spans, a.live, 0, x);
    assert TagShaped(a.spans, a.regions, a.owner, p);
    var t := x - HEADER;
    assert TagsApart(a.spans, t, p) && TagsApart(a.spans, p, t);
    if y in a.live {
      assert BlockHeld(a.spans, a.live, 0, y);
      assert TagsApart(a.spans, t, y - HEADER) && TagsApart(a.spans, y - HEADER, t);
    }
  }

  ghost predicate BlocksApart(live: map<Addr, nat>, x: Addr, y: Addr)
  {
    x in live && y in live && x != y ==> x + live[x] <= y || y + live[y] <= x
  }

  lemma LiveApart(a: State)
    requires Good(a)
    ensures forall x, y {:trigger BlocksApart(a.live, x, y)} :: BlocksApart(a.live, x, y)
  {
    forall x, y ensures BlocksApart(a.live, x, y) {
      if x in a.live {
        assert BlockHeld(a.spans, a.live, 0, x);
        PayloadApart(a, x, y, x - HEADER);
      }
    }
  }

  ghost predicate Listed(lists: seq<seq<Addr>>, i: int, k: int, p: Addr)
  {
    0 <= i < |lists| && 0 <= k < |lists[i]| && lists[i][k] == p
  }

  /** A tag is in a free list exactly when it is not a live block; then it is in one list,
      once, that of its size, and neither neighbour is free. */
  lemma FreeListsExact(a: State, p: Addr)
    requires Good(a) && p in a.spans
    ensures (exists i, k :: Listed(a.lists, i, k, p)) <==> p + HEADER !in a.live
    ensures a.spans[p].realSize >= HEADER
    ensures forall i, k | Listed(a.lists, i, k, p) :: i == Bucket(a.spans[p].realSize - HEADER)
    ensures forall i, k, j, l | Listed(a.lists, i, k, p) && Listed(a.lists, j, l, p) :: i == j && k == l
    ensures FreeAt(a.links, p) ==> !FreeAt(a.links, a.spans[p].left) && !FreeAt(a.links, a.spans[p].right)
  {
    hide Counted, Whole;
    assert TagHeld(a.links, a.live, 0, p) && Filed(a.links, a.lists, p) && TagPlaced(a.spans, a.links, p);
    assert TagShaped(a.spans, a.regions, a.owner, p);
    assert a.spans[p].left in a.links ==> TagPlaced(a.spans, a.links, a.spans[p].left);
    forall i, k | Listed(a.lists, i, k, p)
      ensures i == a.links[p].index
    {
      assert EntryLinked(a.links, a.lists, i, k);
    }
    if a.links[p].index >= 0 {
      var k :| 0 <= k < |a.lists[a.links[p].index]| && a.lists[a.links[p].index][k] == p;
      assert Listed(a.lists, a.links[p].index, k, p);
    }
  }

  // ---------- runs ----------

  datatype Op =
    | DoMalloc(n: nat, run: Addr)
    | DoFree(x: Addr)
    | DoRealloc(x: Addr, n: nat, run: Addr)
    | DoAddRegion(base: Addr, n: nat)

  /** Traffic with the page allocator. */
  datatype Event = Got(base: Addr, pages: nat) | Gave(base: Addr, pages: nat)

  /** What a correct client and a correct page allocator may do in state a.  A realloc
      for which no memory can be had is not covered: the C code then writes through NULL. */
  ghost predicate Legal(a: State, op: Op)
    requires Good(a)
  {
    match op
    case DoMalloc(n, run) => Request(n) && Answer(a, n, run)
    case DoFree(x) => x in a.live
    case DoRealloc(x, n, run) =>
      x in a.live && n > 0 && Request(n) && Answer(a, n, run) && Malloc(a, n, run).1 != 0
    case DoAddRegion(b, n) => HEADER < n < LIMIT && Fresh(a.regions, b, n)
  }

  ghost function GotEvents(a: State, n: nat, run: Addr): seq<Event>
    requires Good(a)
  {
    if run != 0 && NoneFits(a, n) then [Got(run, PagesFor(n))] else []
  }

  function GaveEvents(base: Addr, pages: nat): seq<Event>
  {
    if base == 0 then [] else [Gave(base, pages)]
  }

  ghost function Step(a: State, op: Op): (r: (State, seq<Event>))
    requires Good(a) && Legal(a, op)
    ensures Good(r.0)
    ensures !op.DoAddRegion? ==> r.0.extra == a.extra
  {
    match op
    case DoMalloc(n, run) => (Malloc(a, n, run).0, GotEvents(a, n, run))
    case DoFree(x) => var (b, base, pages) := Free(a, x); (b, GaveEvents(base, pages))
    case DoRealloc(x, n, run) =>
      var (b, _, base, pages) := Realloc(a, x, n, run);
      (b, GotEvents(a, n, run) + GaveEvents(base, pages))
    case DoAddRegion(b, n) => (AddRegion(a, b, n), [])
  }

  ghost predicate LegalRun(a: State, ops: seq<Op>)
    decreases |ops|
  {
    Good(a) && (ops == [] || (Legal(a, ops[0]) && LegalRun(Step(a, ops[0]).0, ops[1..])))
  }

  ghost function Run(a: State, ops: seq<Op>): (r: (State, seq<Event>))
    requires LegalRun(a, ops)
    decreases |ops|
  {
    if ops == [] then (a, [])
    else
      var (b, e) := Step(a, ops[0]);
      var (c, f) := Run(b, ops[1..]);
      (c, e + f)
  }

  function Initial(): State
  {
    State(map[], map[], seq(MAXEXP, i => 0), seq(MAXEXP, i => 0), map[], map[],
          seq(MAXEXP, i => []), map[], seq(MAXEXP, i => 0))
  }

  lemma InitialGood()
    ensures Good(Initial())
  {
    var a := Initial();
    assert forall i | 0 <= i < MAXEXP :: Whole(a.spans, a.links, i) == {};
  }

  /** Every legal run keeps the invariant. */
  lemma {:induction false} RunGood(a: State, ops: seq<Op>)
    requires LegalRun(a, ops)
    ensures Good(Run(a, ops).0)
    decreases |ops|
  {
    if ops != [] {
      RunGood(Step(a, ops[0]).0, ops[1..]);
    }
  }

  /** One more operation at the end of a run. */
  lemma {:induction false} RunSnoc(a: State, ops: seq<Op>, op: Op)
    requires LegalRun(a, ops) && Good(Run(a, ops).0) && Legal(Run(a, ops).0, op)
    ensures LegalRun(a, ops + [op])
    ensures Run(a, ops + [op]).0 == Step(Run(a, ops).0, op).0
    decreases |ops|
  {
    hide Good, Legal, Step;
    if ops == [] {
      assert (ops + [op])[1..] == [];
    } else {
      RunSnoc(Step(a, ops[0]).0, ops[1..], op);
      assert (ops + [op])[1..] == ops[1..] + [op];
    }
  }

  // ---------- the count of whole free blocks ----------

  /** How many regions of size class i a run adds. */
  function Added(ops: seq<Op>, i: nat): nat
  {
    if ops == [] then 0
    else Added(ops[1..], i) +
         if ops[0].DoAddRegion? && ops[0].n >= HEADER && Bucket(ops[0].n - HEADER) == i then 1 else 0
  }

  lemma {:induction false} ExtraAdded(a: State, ops: seq<Op>, i: nat)
    requires LegalRun(a, ops) && i < MAXEXP
    ensures var b := Run(a, ops).0;
            |a.extra| == |b.extra| == MAXEXP && b.extra[i] == a.extra[i] + Added(ops, i)
    decreases |ops|
  {
    hide Malloc, Free, Realloc, AddRegion;
    assert Counted(a.spans, a.links, a.complete, a.extra);
    if ops != [] {
      ExtraAdded(Step(a, ops[0]).0, ops[1..], i);
    }
  }

  /** After every run from boot, the count of a size class is the number of its whole free
      blocks less the regions of that class that were added, and never exceeds MAXCOMPLETE. So it
      is exact if and only if no region of that class was added. */
  lemma WholeBlocksCounted(ops: seq<Op>, i: nat)
    requires LegalRun(Initial(), ops) && i < MAXEXP
    ensures var b := Run(Initial(), ops).0;
            && |b.complete| == MAXEXP
            && b.complete[i] == |Whole(b.spans, b.links, i)| - Added(ops, i) <= MAXCOMPLETE
            && (b.complete[i] == |Whole(b.spans, b.links, i)| <==> NoneAdded(ops, i))
  {
    RunGood(Initial(), ops);
    ExtraAdded(Initial(), ops, i);
    AddedZero(ops, i);
    var b := Run(Initial(), ops).0;
    assert Counted(b.spans, b.links, b.complete, b.extra);
  }

  predicate NoneAdded(ops: seq<Op>, i: nat)
  {
    forall op | op in ops && op.DoAddRegion? && op.n >= HEADER :: Bucket(op.n - HEADER) != i
  }

  lemma {:induction false} AddedZero(ops: seq<Op>, i: nat)
    ensures Added(ops, i) == 0 <==> NoneAdded(ops, i)
  {
    if ops != [] {
      AddedZero(ops[1..], i);
      assert ops[0] in ops && forall op | op in ops :: op == ops[0] || op in ops[1..];
    }
  }
}
