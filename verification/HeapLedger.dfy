/** The traffic of the heap with the page allocator: what is given back was obtained, exactly
    until a region of add_region goes back, and when that happens. */
module HeapLedger {
  import opened Arena
  import opened HeapSpec
  import opened HeapRuns

  // ---------- when free gives a region back ----------

  /** The region a live block lies in. */
  ghost function Home(a: State, x: Addr): (b: Addr)
    requires Good(a) && x in a.live
    ensures b in a.regions && x - HEADER in a.owner && a.owner[x - HEADER] == b
    ensures a.regions[b].bytes >= HEADER && Bucket(a.regions[b].bytes - HEADER) < |a.complete|
  {
    assert BlockHeld(a.spans, a.live, 0, x);
    assert TagShaped(a.spans, a.regions, a.owner, x - HEADER);
    assert RegionShaped(a.spans, a.regions, a.owner, a.owner[x - HEADER]);
    BucketBounds(a.regions[a.owner[x - HEADER]].bytes - HEADER);
    a.owner[x - HEADER]
  }

  /** x is the only live block of its region. */
  ghost predicate Alone(a: State, x: Addr)
    requires Good(a) && x in a.live
  {
    forall y | y in a.live && y != x :: Home(a, y) != Home(a, x)
  }

  /** Freeing x gives its region back: x is alone in it, and enough whole free blocks of the
      region's size class are standing by. */
  ghost predicate GivesBack(a: State, x: Addr)
    requires Good(a) && x in a.live
  {
    Alone(a, x) && a.complete[Bucket(a.regions[Home(a, x)].bytes - HEADER)] == MAXCOMPLETE
  }

  /** Coalescing stays inside the region and moves no other tag to another. */
  lemma CoalescedHome(a: State, x: Addr)
    requires Good(a) && x in a.live
    ensures var (c, t) := Coalesced(a, x);
            && t in c.owner && c.owner[t] == Home(a, x)
            && forall p | p in c.owner :: p in a.owner && c.owner[p] == a.owner[p]
  {
    ReclaimReady(a, x);
    var t := x - HEADER;
    assert TagShaped(a.spans, a.regions, a.owner, t);
    if a.spans[t].left != 0 { assert TagShaped(a.spans, a.regions, a.owner, a.spans[t].left); }
  }

  /** The coalesced tag fills its region exactly if the freed block was alone in it. */
  lemma CoalescedWhole(a: State, x: Addr)
    requires Good(a) && x in a.live
    ensures var (c, t) := Coalesced(a, x);
            && (c.spans[t].left == 0 && c.spans[t].right == 0 <==> Alone(a, x))
            && (Alone(a, x) ==> t == Home(a, x) && c.spans[t].realSize == a.regions[t].bytes)
  {
    var (c, t) := Coalesced(a, x);
    CoalescedHome(a, x);
    hide Coalesced;
    var s, b := c.spans[t], Home(a, x);
    assert TagShaped(c.spans, c.regions, c.owner, t);
    if s.left == 0 && s.right == 0 {
      forall y | y in a.live && y != x
        ensures Home(a, y) != b
      {
        assert BlockHeld(c.spans, c.live, t, y);
        assert TagShaped(c.spans, c.regions, c.owner, y - HEADER);
        assert TagsApart(c.spans, t, y - HEADER);
      }
    } else {
      var p := if s.left != 0 then s.left else s.right;
      assert TagShaped(c.spans, c.regions, c.owner, p);
      assert TagHeld(c.links, c.live, t, p);
      assert p + HEADER in a.live && p + HEADER != x && Home(a, p + HEADER) == b;
    }
  }

  /** A free calls liballoc_free if and only if the block is the only one in its region and the
      reserve of that size class is full, and then it gives back that region. */
  lemma FreeGivesBack(a: State, x: Addr)
    requires Good(a) && x in a.live
    ensures Free(a, x).1 != 0 <==> GivesBack(a, x)
    ensures GivesBack(a, x) ==> Free(a, x).1 == Home(a, x)
  {
    var (c, t) := Coalesced(a, x);
    CoalescedWhole(a, x);
    hide Coalesced, Alone, Disposed;
    TagClass(c, t);
    DisposedCases(c, t, Bucket(c.spans[t].realSize - HEADER));
    hide Ready, Home;
  }

  lemma TagClass(a: State, t: Addr)
    requires Ready(a, t) && t in a.spans
    ensures HEADER <= a.spans[t].realSize && Bucket(a.spans[t].realSize - HEADER) < MAXEXP == |a.complete|
  {
    assert TagShaped(a.spans, a.regions, a.owner, t);
    assert RegionShaped(a.spans, a.regions, a.owner, a.owner[t]);
    BucketBounds(a.spans[t].realSize - HEADER);
  }

  // ---------- the page ledger ----------

  /** The runs of pages obtained and not yet given back; Broken after a give-back of
      something that was not outstanding with that page count. */
  datatype Ledger = Broken | Open(out: map<Addr, nat>)

  function Post(l: Ledger, e: Event): Ledger
  {
    match (l, e)
    case (Broken, _) => Broken
    case (Open(out), Got(b, pages)) => if b in out then Broken else Open(out[b := pages])
    case (Open(out), Gave(b, pages)) => if b in out && out[b] == pages then Open(out - {b}) else Broken
  }

  function PostAll(l: Ledger, es: seq<Event>): Ledger
    decreases |es|
  {
    if es == [] then l else PostAll(Post(l, es[0]), es[1..])
  }

  lemma {:induction false} PostAllConcat(l: Ledger, es: seq<Event>, fs: seq<Event>)
    ensures PostAll(l, es + fs) == PostAll(PostAll(l, es), fs)
    decreases |es|
  {
    if es == [] {
      assert es + fs == fs;
    } else {
      assert (es + fs)[1..] == es[1..] + fs;
      PostAllConcat(Post(l, es[0]), es[1..], fs);
    }
  }

  function Pages(regions: map<Addr, Region>): map<Addr, nat>
  {
    map b | b in regions && regions[b].pages != 0 :: regions[b].pages
  }

  lemma FreshOutside(a: State, b: Addr, n: nat)
    requires Good(a) && Fresh(a.regions, b, n) && n > 0
    ensures b !in a.regions
  {
    assert b in a.regions ==> RegionShaped(a.spans, a.regions, a.owner, b) && TagShaped(a.spans, a.regions, a.owner, b);
  }

  lemma PostOne(l: Ledger, e: Event)
    ensures PostAll(l, [e]) == Post(l, e)
  {
  }

  lemma PostGot(regions: map<Addr, Region>, base: Addr, r: Region)
    requires base !in regions
    ensures r.pages != 0 ==>
              PostAll(Open(Pages(regions)), [Got(base, r.pages)]) == Open(Pages(regions[base := r]))
    ensures r.pages == 0 ==> Pages(regions[base := r]) == Pages(regions)
  {
    PostOne(Open(Pages(regions)), Got(base, r.pages));
    if r.pages != 0 {
      assert Pages(regions[base := r]) == Pages(regions)[base := r.pages];
    }
  }

  lemma GotPosts(a: State, n: nat, run: Addr)
    requires Good(a) && Request(n) && Answer(a, n, run)
    ensures PostAll(Open(Pages(a.regions)), GotEvents(a, n, run)) == Open(Pages(Malloc(a, n, run).0.regions))
  {
    var b := Malloc(a, n, run).0;
    hide Malloc, Pages, PagesFor, PostAll;
    if run != 0 && NoneFits(a, n) {
      FreshOutside(a, run, PagesFor(n) * PAGESIZE);
      PostGot(a.regions, run, Region(PagesFor(n) * PAGESIZE, PagesFor(n)));
    } else {
      PostNothing(Open(Pages(a.regions)));
    }
  }

  lemma PostNothing(l: Ledger)
    ensures PostAll(l, []) == l
  {
  }

  /** Freeing x gives back a region that the page allocator never issued. */
  ghost predicate GivesAdded(a: State, x: Addr)
    requires Good(a) && x in a.live
  {
    GivesBack(a, x) && a.regions[Home(a, x)].pages == 0
  }

  lemma PostGave(regions: map<Addr, Region>, base: Addr, pages: nat)
    requires base in regions && (regions[base].pages != 0 ==> pages == regions[base].pages)
    ensures PostAll(Open(Pages(regions)), [Gave(base, pages)])
            == if regions[base].pages == 0 then Broken else Open(Pages(regions - {base}))
  {
    PostOne(Open(Pages(regions)), Gave(base, pages));
    assert Pages(regions - {base}) == Pages(regions) - {base};
  }

  /** A free breaks the ledger if and only if, before it, the block is the only one in a region of
      add_region and the reserve of that size class is full. */
  lemma GavePosts(a: State, x: Addr)
    requires Good(a) && x in a.live
    ensures var (b, base, pages) := Free(a, x);
            PostAll(Open(Pages(a.regions)), GaveEvents(base, pages))
            == if GivesAdded(a, x) then Broken else Open(Pages(b.regions))
  {
    var (b, base, pages) := Free(a, x);
    FreeGivesBack(a, x);
    hide Free, Pages, PostAll, GivesBack;
    if base == 0 {
      PostNothing(Open(Pages(a.regions)));
    } else {
      PostGave(a.regions, base, pages);
    }
  }

  /** Whether an operation breaks the ledger; realloc frees after it has allocated. */
  ghost predicate Breaks(a: State, op: Op)
    requires Good(a) && Legal(a, op)
  {
    match op
    case DoFree(x) => GivesAdded(a, x)
    case DoRealloc(x, n, run) => GivesAdded(Malloc(a, n, run).0, x)
    case _ => false
  }

  lemma StepPosts(a: State, op: Op)
    requires Good(a) && Legal(a, op)
    ensures PostAll(Open(Pages(a.regions)), Step(a, op).1)
            == if Breaks(a, op) then Broken else Open(Pages(Step(a, op).0.regions))
  {
    hide Pages, PostAll, GivesAdded;
    match op
    case DoMalloc(n, run) => GotPosts(a, n, run);
    case DoFree(x) => GavePosts(a, x);
    case DoRealloc(x, n, run) =>
      GotPosts(a, n, run);
      var b := Malloc(a, n, run).0;
      GavePosts(b, x);
      PostAllConcat(Open(Pages(a.regions)), GotEvents(a, n, run), GaveEvents(Free(b, x).1, Free(b, x).2));
    case DoAddRegion(b, n) =>
      FreshOutside(a, b, n);
      PostGot(a.regions, b, Region(n, 0));
      PostNothing(Open(Pages(a.regions)));
  }

  ghost predicate RunBreaks(a: State, ops: seq<Op>)
    requires LegalRun(a, ops)
    decreases |ops|
  {
    ops != [] && (Breaks(a, ops[0]) || RunBreaks(Step(a, ops[0]).0, ops[1..]))
  }

  lemma {:induction false} StaysBroken(es: seq<Event>)
    ensures PostAll(Broken, es) == Broken
  {
    if es != [] {
      StaysBroken(es[1..]);
    }
  }

  /** In every legal run, each run of pages given back was obtained with that base and page count
      and is given back once, and what is outstanding is exactly the heap's page runs, if and only
      if no free of the run gives back a region of add_region. */
  lemma {:induction false} PagesBalance(a: State, ops: seq<Op>)
    requires LegalRun(a, ops)
    ensures PostAll(Open(Pages(a.regions)), Run(a, ops).1)
            == if RunBreaks(a, ops) then Broken else Open(Pages(Run(a, ops).0.regions))
    decreases |ops|
  {
    hide Pages, Legal, Good, Step, Breaks, PostAll;
    if ops == [] {
      PostNothing(Open(Pages(a.regions)));
    } else {
      StepPosts(a, ops[0]);
      var (b, e) := Step(a, ops[0]);
      PagesBalance(b, ops[1..]);
      StaysBroken(Run(b, ops[1..]).1);
      PostAllConcat(Open(Pages(a.regions)), e, Run(b, ops[1..]).1);
    }
  }

  ghost predicate OnlyPages(a: State)
  {
    forall b | b in a.regions :: a.regions[b].pages != 0
  }

  /** Without add_region nothing breaks. */
  lemma {:induction false} PagesOnly(a: State, ops: seq<Op>)
    requires LegalRun(a, ops) && OnlyPages(a) && forall op | op in ops :: !op.DoAddRegion?
    ensures !RunBreaks(a, ops)
    decreases |ops|
  {
    if ops != [] {
      StepOnlyPages(a, ops[0]);
      assert forall op | op in ops[1..] :: op in ops;
      PagesOnly(Step(a, ops[0]).0, ops[1..]);
    }
  }

  lemma StepOnlyPages(a: State, op: Op)
    requires Good(a) && Legal(a, op) && OnlyPages(a) && !op.DoAddRegion?
    ensures !Breaks(a, op) && OnlyPages(Step(a, op).0)
  {
    hide Good, Malloc, Free, AddRegion, GivesBack, Request, Answer;
  }

  lemma {:induction false} BreaksSnoc(a: State, ops: seq<Op>, op: Op)
    requires LegalRun(a, ops) && Good(Run(a, ops).0) && Legal(Run(a, ops).0, op)
    ensures LegalRun(a, ops + [op])
    ensures RunBreaks(a, ops + [op]) <==> RunBreaks(a, ops) || Breaks(Run(a, ops).0, op)
    decreases |ops|
  {
    hide Good, Legal, Step, Breaks;
    RunSnoc(a, ops, op);
    if ops == [] {
      assert (ops + [op])[1..] == [];
    } else {
      BreaksSnoc(Step(a, ops[0]).0, ops[1..], op);
      assert (ops + [op])[1..] == ops[1..] + [op];
    }
  }
}
