/** A run from boot in which the heap gives the page allocator a region it never issued. */
module HeapWitness {
  import opened Arena
  import opened HeapSpec
  import opened HeapRuns
  import opened HeapLedger

  const BYTES := 0x1_0000   // a region
  const BLOCK := 65240      // a request that fills one, and leaves too little to split off
  const CLASS := 15         // its size class

  lemma ClassOf()
    ensures Bucket(BYTES - HEADER) == CLASS && PagesFor(BLOCK) == PAGECOUNT && PagesFor(BLOCK) * PAGESIZE == BYTES
  {
    assert Pow2(10) == 1024 && Pow2(15) == 0x8000 && Pow2(16) == 0x1_0000;
    Log2Unique(BYTES - HEADER, CLASS);
  }

  predicate HeldAt(live: map<Addr, nat>, held: set<Addr>, b: Addr)
  {
    b + HEADER in live <==> b in held
  }

  lemma HeldMore(live: map<Addr, nat>, held: set<Addr>, b: Addr)
    requires forall q {:trigger HeldAt(live, held, q)} :: HeldAt(live, held, q)
    ensures var live' := live[b + HEADER := BLOCK];
            forall q {:trigger HeldAt(live', held + {b}, q)} :: HeldAt(live', held + {b}, q)
  {
    var live' := live[b + HEADER := BLOCK];
    forall q ensures HeldAt(live', held + {b}, q) {
      assert HeldAt(live, held, q);
    }
  }

  lemma HeldLess(live: map<Addr, nat>, held: set<Addr>, b: Addr)
    requires forall q {:trigger HeldAt(live, held, q)} :: HeldAt(live, held, q)
    ensures var live' := live - {b + HEADER};
            forall q {:trigger HeldAt(live', held - {b}, q)} :: HeldAt(live', held - {b}, q)
  {
    var live' := live - {b + HEADER};
    forall q ensures HeldAt(live', held - {b}, q) {
      assert HeldAt(live, held, q);
    }
  }

  /** Every region is one tag: a block in `held`, or free in `spare`. */
  ghost predicate Laid(a: State, held: set<Addr>, spare: set<Addr>, count: int)
  {
    && held !! spare
    && a.spans.Keys == a.regions.Keys == held + spare
    && (forall b | b in a.regions :: a.regions[b].bytes == BYTES)
    && (forall b {:trigger HeldAt(a.live, held, b)} :: HeldAt(a.live, held, b))
    && |a.complete| == MAXEXP && a.complete[CLASS] == count
  }

  ghost predicate Rows(a: State, held: set<Addr>, spare: set<Addr>, count: int)
  {
    Good(a) && Laid(a, held, spare, count)
  }

  /** Each tag fills its region. */
  lemma RowWhole(a: State, held: set<Addr>, spare: set<Addr>, count: int, b: Addr)
    requires Rows(a, held, spare, count) && b in held + spare
    ensures a.owner[b] == b && a.spans[b].left == 0 && a.spans[b].right == 0 && a.spans[b].realSize == BYTES
    ensures FreeAt(a.links, b) <==> b in spare
  {
    assert RegionShaped(a.spans, a.regions, a.owner, b) && TagShaped(a.spans, a.regions, a.owner, b);
    var r := a.spans[b].right;
    assert r in a.regions ==> RegionShaped(a.spans, a.regions, a.owner, r);
    assert TagHeld(a.links, a.live, 0, b);
    assert HeldAt(a.live, held, b);
  }

  lemma RowAdded(b: Addr)
    requires b > 0
    ensures Good(Initial()) && Legal(Initial(), DoAddRegion(b, BYTES))
    ensures Rows(AddRegion(Initial(), b, BYTES), {}, {b}, 0)
  {
    InitialGood();
    ClassOf();
  }

  /** The first block takes the added region. */
  lemma RowTaken(a: State, b: Addr, count: int)
    requires Rows(a, {}, {b}, count)
    ensures Legal(a, DoMalloc(BLOCK, 0)) && Rows(Malloc(a, BLOCK, 0).0, {b}, {}, count - 1)
    ensures Malloc(a, BLOCK, 0).0.regions == a.regions
  {
    TakenState(a, b, count);
    TakenLaid(a, Malloc(a, BLOCK, 0).0, b, count);
    hide Malloc, Good, Laid;
  }

  lemma TakenLaid(a: State, c: State, b: Addr, count: int)
    requires Laid(a, {}, {b}, count)
    requires c.spans.Keys == {b} && c.regions == a.regions && c.live == a.live[b + HEADER := BLOCK]
    requires |c.complete| == MAXEXP && c.complete[CLASS] == count - 1
    ensures Laid(c, {b}, {}, count - 1)
  {
    HeldMore(a.live, {}, b);
    assert {} + {b} == {b};
  }

  lemma TakenState(a: State, b: Addr, count: int)
    requires Rows(a, {}, {b}, count)
    ensures Request(BLOCK) && Answer(a, BLOCK, 0)
    ensures var c := Malloc(a, BLOCK, 0).0;
            && c.spans.Keys == {b} && c.regions == a.regions && c.live == a.live[b + HEADER := BLOCK]
            && |c.complete| == MAXEXP && c.complete[CLASS] == count - 1
  {
    ClassOf();
    RowWhole(a, {}, {b}, count, b);
    assert FreeAt(a.links, b) && Fits(a.spans[b], BLOCK) && TagPlaced(a.spans, a.links, b);
    assert Found(a, BLOCK) == b by { FoundMeaning(a, BLOCK); }
    TakeReady(a, b);
    hide Good, Ready, Found, NoneFits, Take, PagesFor;
    assert Take(a, b).complete == a.complete[CLASS := count - 1];
  }

  lemma RowFull(a: State, held: set<Addr>, count: int)
    requires Rows(a, held, {}, count)
    ensures NoneFits(a, BLOCK) && Found(a, BLOCK) == 0
  {
    forall q | FreeAt(a.links, q)
      ensures !Fits(a.spans[q], BLOCK)
    {
      RowWhole(a, held, {}, count, q);
    }
    FoundMeaning(a, BLOCK);
  }

  /** With nothing free, a block takes a new run of pages. */
  lemma RowNew(a: State, held: set<Addr>, count: int, run: Addr)
    requires Rows(a, held, {}, count) && run > 0 && Fresh(a.regions, run, BYTES)
    ensures Legal(a, DoMalloc(BLOCK, run)) && Rows(Malloc(a, BLOCK, run).0, held + {run}, {}, count)
    ensures Malloc(a, BLOCK, run).0.regions == a.regions[run := Region(BYTES, PAGECOUNT)]
  {
    RowFull(a, held, count);
    NewState(a, run);
    FreshOutside(a, run, BYTES);
    NewLaid(a, held, count, run);
    hide Malloc, Good, Laid;
  }

  lemma NewLaid(a: State, held: set<Addr>, count: int, run: Addr)
    requires Laid(a, held, {}, count) && run !in a.regions
    ensures Laid(Adopt(a, run, Region(BYTES, PAGECOUNT), BLOCK).(live := a.live[run + HEADER := BLOCK]),
                 held + {run}, {}, count)
  {
    HeldMore(a.live, held, run);
  }

  lemma NewState(a: State, run: Addr)
    requires Good(a) && run > 0 && Fresh(a.regions, run, BYTES) && Found(a, BLOCK) == 0
    ensures Request(BLOCK) && Answer(a, BLOCK, run)
    ensures Malloc(a, BLOCK, run).0 ==
            Adopt(a, run, Region(BYTES, PAGECOUNT), BLOCK).(live := a.live[run + HEADER := BLOCK])
  {
    ClassOf();
    hide Good, Ready, Found, NoneFits;
  }

  /** A freed block joins the reserve. */
  lemma RowFreed(a: State, held: set<Addr>, spare: set<Addr>, count: int, b: Addr)
    requires Rows(a, held, spare, count) && b in held && count < MAXCOMPLETE
    ensures b + HEADER in a.live && Rows(Free(a, b + HEADER).0, held - {b}, spare + {b}, count + 1)
    ensures Free(a, b + HEADER).0.regions == a.regions
  {
    assert HeldAt(a.live, held, b);
    FreedState(a, held, spare, count, b);
    FreedLaid(a, Free(a, b + HEADER).0, held, spare, count, b);
    hide Free, Good, Laid;
  }

  lemma FreedLaid(a: State, c: State, held: set<Addr>, spare: set<Addr>, count: int, b: Addr)
    requires Laid(a, held, spare, count) && b in held
    requires c.spans == a.spans && c.regions == a.regions && c.live == a.live - {b + HEADER}
    requires c.complete == a.complete[CLASS := count + 1]
    ensures Laid(c, held - {b}, spare + {b}, count + 1)
  {
    HeldLess(a.live, held, b);
    assert held - {b} + (spare + {b}) == held + spare;
  }

  lemma FreedState(a: State, held: set<Addr>, spare: set<Addr>, count: int, b: Addr)
    requires Rows(a, held, spare, count) && b in held && b + HEADER in a.live && count < MAXCOMPLETE
    ensures var c := Free(a, b + HEADER).0;
            && c.spans == a.spans && c.regions == a.regions && c.live == a.live - {b + HEADER}
            && c.complete == a.complete[CLASS := count + 1]
  {
    ClassOf();
    RowWhole(a, held, spare, count, b);
    var c := a.(live := a.live - {b + HEADER});
    ReclaimReady(a, b + HEADER);
    assert Coalesced(a, b + HEADER) == (c, b) by {
      hide Ready, MeltLeft, MeltRight;
    }
    hide Coalesced;
    DisposedCases(c, b, CLASS);
    hide Ready, Disposed;
  }

  // ---------- the run ----------

  /** The k-th region. */
  function At(k: nat): Addr
  {
    BYTES * (k + 1)
  }

  /** What is done at step j: a region is added and taken, six blocks take pages, the six are
      freed, and then the first. */
  function Move(j: nat): Op
  {
    if j == 0 then DoAddRegion(At(0), BYTES)
    else if j == 1 then DoMalloc(BLOCK, 0)
    else if j < 8 then DoMalloc(BLOCK, At(j - 1))
    else if j < 14 then DoFree(At(j - 7) + HEADER)
    else DoFree(At(0) + HEADER)
  }

  function Moves(j: nat): seq<Op>
  {
    if j == 0 then [] else Moves(j - 1) + [Move(j - 1)]
  }

  /** The regions from the i-th up to the k-th. */
  ghost function Between(i: nat, k: nat): set<Addr>
  {
    set m: nat | i <= m < k :: At(m)
  }

  /** The state after j moves: region 0 is of add_region, the others are pages. */
  ghost predicate After(a: State, j: nat)
  {
    && (if j == 0 then a == Initial()
        else if j == 1 then Rows(a, {}, {At(0)}, 0)
        else if j < 8 then Rows(a, Between(0, j - 1), {}, -1)
        else j <= 14 && Rows(a, {At(0)} + Between(j - 7, 7), Between(1, j - 7), j - 9))
    && (j >= 1 ==> At(0) in a.regions && a.regions[At(0)].pages == 0)
  }

  lemma Grown(i: nat, k: nat)
    requires i <= k
    ensures Between(i, k + 1) == Between(i, k) + {At(k)}
  {
  }

  /** The six blocks move from one set to the other, first to last. */
  lemma Shifted(j: nat)
    requires 8 <= j < 14
    ensures At(j - 7) in Between(j - 7, 7)
    ensures {At(0)} + Between(j - 7, 7) - {At(j - 7)} == {At(0)} + Between(j - 6, 7)
    ensures Between(1, j - 7) + {At(j - 7)} == Between(1, j - 6)
  {
    assert forall m: nat | j - 7 < m < 7 :: At(m) != At(j - 7);
    Grown(1, j - 7);
  }

  lemma FreshAt(a: State, k: nat, count: int)
    requires Laid(a, Between(0, k), {}, count)
    ensures Fresh(a.regions, At(k), BYTES)
  {
    forall c | c in a.regions
      ensures c + a.regions[c].bytes <= At(k)
    {
      assert c in Between(0, k);
    }
  }

  /** The first half of the run, by definition. */
  lemma AfterPages(a: State, j: nat)
    requires 2 <= j < 8
    ensures After(a, j) <==> Rows(a, Between(0, j - 1), {}, -1) && At(0) in a.regions && a.regions[At(0)].pages == 0
    ensures Move(j) == DoMalloc(BLOCK, At(j - 1)) && At(j - 1) > 0 && At(j - 1) != At(0)
  {
    hide Rows, Between;
  }

  lemma MovePages(a: State, j: nat)
    requires 2 <= j < 8
    ensures After(a, j) ==> Good(a) && Legal(a, Move(j)) && After(Step(a, Move(j)).0, j + 1)
  {
    hide After, Good, Move, Between, At, Laid, Malloc, Free, Realloc, AddRegion, Request, Answer, Fresh;
    if After(a, j) {
      AfterPages(a, j);
      FreshAt(a, j - 1, -1);
      RowNew(a, Between(0, j - 1), -1, At(j - 1));
      SixHeld(j);
      if j < 7 { AfterPages(Step(a, Move(j)).0, j + 1); } else { AfterBack(Step(a, Move(j)).0, 8); }
    }
  }

  lemma SixHeld(j: nat)
    requires 2 <= j < 8
    ensures Between(0, j - 1) + {At(j - 1)} == Between(0, j)
    ensures j == 7 ==> Between(0, j) == {At(0)} + Between(1, 7) && Between(1, 1) == {}
  {
    Grown(0, j - 1);
  }

  /** The second half of the run, by definition. */
  lemma AfterBack(a: State, j: nat)
    requires 8 <= j <= 14
    ensures After(a, j) <==> && Rows(a, {At(0)} + Between(j - 7, 7), Between(1, j - 7), j - 9)
                             && At(0) in a.regions && a.regions[At(0)].pages == 0
    ensures j < 14 ==> Move(j) == DoFree(At(j - 7) + HEADER)
  {
    hide Rows, Between, At;
  }

  lemma MoveBack(a: State, j: nat)
    requires 8 <= j < 14
    ensures After(a, j) ==> Good(a) && Legal(a, Move(j)) && After(Step(a, Move(j)).0, j + 1)
  {
    hide After, Good, Move, Between, At, Free, Laid, Malloc, Realloc, AddRegion, Request, Answer, Fresh;
    if After(a, j) {
      Shifted(j);
      AfterBack(a, j);
      RowFreed(a, {At(0)} + Between(j - 7, 7), Between(1, j - 7), j - 9, At(j - 7));
      AfterBack(Step(a, Move(j)).0, j + 1);
    }
  }

  lemma MoveAdd(a: State)
    ensures After(a, 0) ==> Good(a) && Legal(a, Move(0)) && After(Step(a, Move(0)).0, 1)
  {
    hide Good, Laid, Malloc, Free, Realloc, AddRegion;
    if After(a, 0) {
      RowAdded(At(0));
    }
  }

  lemma MoveTake(a: State)
    ensures After(a, 1) ==> Good(a) && Legal(a, Move(1)) && After(Step(a, Move(1)).0, 2)
  {
    hide Good, Laid, Malloc, Free, Realloc, AddRegion;
    if After(a, 1) {
      RowTaken(a, At(0), 0);
      assert Between(0, 1) == {At(0)};
    }
  }

  lemma {:induction false} MovesLead(j: nat)
    requires j <= 14
    ensures LegalRun(Initial(), Moves(j)) && After(Run(Initial(), Moves(j)).0, j)
  {
    hide Good, Legal, Step, After;
    if j == 0 {
      InitialGood();
      assert After(Initial(), 0) by { MoveZero(); }
    } else {
      MovesLead(j - 1);
      var a := Run(Initial(), Moves(j - 1)).0;
      if j == 1 { MoveAdd(a); }
      else if j == 2 { MoveTake(a); }
      else if j <= 8 { MovePages(a, j - 1); }
      else { MoveBack(a, j - 1); }
      RunSnoc(Initial(), Moves(j - 1), Move(j - 1));
    }
  }

  lemma MoveZero()
    ensures After(Initial(), 0)
  {
  }

  /** The last free gives back the added region. */
  lemma LastBreaks(a: State)
    requires After(a, 14)
    ensures Good(a) && Legal(a, Move(14)) && Breaks(a, Move(14))
  {
    var x := At(0) + HEADER;
    var held, spare := {At(0)}, Between(1, 7);
    assert {At(0)} + Between(7, 7) == held;
    assert HeldAt(a.live, held, At(0));
    RowWhole(a, held, spare, 5, At(0));
    ClassOf();
    assert Home(a, x) == At(0);
    assert forall y | y in a.live :: y == x by {
      assert forall y | y in a.live :: HeldAt(a.live, held, y - HEADER);
    }
  }

  /** From boot, and by legal calls alone, the heap comes to give back a region that the page
      allocator never issued. */
  lemma AddedRegionReturned()
    ensures LegalRun(Initial(), Moves(15)) && RunBreaks(Initial(), Moves(15))
    ensures PostAll(Open(map[]), Run(Initial(), Moves(15)).1) == Broken
  {
    MovesLead(14);
    var a := Run(Initial(), Moves(14)).0;
    LastBreaks(a);
    hide Good, Legal, Step, After, Breaks, RunBreaks, PostAll;
    assert Moves(15) == Moves(14) + [Move(14)];
    BreaksSnoc(Initial(), Moves(14), Move(14));
    PagesBalance(Initial(), Moves(15));
    assert Pages(Initial().regions) == map[];
  }
}
