/** What malloc, free, realloc and add_region do to the heap, and what holds of every
    run of them. */
module HeapSpec {
  import opened Arena

  // ---------- finding a tag ----------

  predicate Fits(s: Span, n: nat)
  {
    s.realSize - HEADER >= n + HEADER
  }

  function FirstFit(spans: map<Addr, Span>, l: seq<Addr>, n: nat): (p: Addr)
    requires forall k | 0 <= k < |l| :: l[k] in spans
  {
    if l == [] then 0 else if Fits(spans[l[0]], n) then l[0] else FirstFit(spans, l[1..], n)
  }

  /** The first fitting tag of the first list, from list i on, that has one. */
  function Search(spans: map<Addr, Span>, lists: seq<seq<Addr>>, i: nat, n: nat): (p: Addr)
    requires forall j, k | 0 <= j < |lists| && 0 <= k < |lists[j]| :: lists[j][k] in spans
    decreases |lists| - i
  {
    if i >= |lists| then 0
    else
      var p := FirstFit(spans, lists[i], n);
      if p != 0 then p else Search(spans, lists, i + 1, n)
  }

  lemma {:induction false} FirstFitMeaning(spans: map<Addr, Span>, l: seq<Addr>, n: nat)
    requires forall k | 0 <= k < |l| :: l[k] in spans && l[k] != 0
    ensures FirstFit(spans, l, n) == 0 ==> forall k | 0 <= k < |l| :: !Fits(spans[l[k]], n)
    ensures FirstFit(spans, l, n) != 0 ==>
              exists k :: FirstAt(spans, l, n, k) && l[k] == FirstFit(spans, l, n)
  {
    if l != [] {
      if Fits(spans[l[0]], n) {
        assert FirstAt(spans, l, n, 0);
      } else {
        FirstFitMeaning(spans, l[1..], n);
        if FirstFit(spans, l[1..], n) != 0 {
          var k :| FirstAt(spans, l[1..], n, k) && l[1..][k] == FirstFit(spans, l[1..], n);
          assert FirstAt(spans, l, n, k + 1);
        }
      }
    }
  }

  /** Entry k fits, and none before it does. */
  predicate FirstAt(spans: map<Addr, Span>, l: seq<Addr>, n: nat, k: int)
    requires forall j | 0 <= j < |l| :: l[j] in spans
  {
    0 <= k < |l| && Fits(spans[l[k]], n) && forall j | 0 <= j < k :: !Fits(spans[l[j]], n)
  }

  lemma {:induction false} SearchMeaning(spans: map<Addr, Span>, lists: seq<seq<Addr>>, i: nat, n: nat)
    requires forall j, k | 0 <= j < |lists| && 0 <= k < |lists[j]| :: lists[j][k] in spans && lists[j][k] != 0
    ensures var p := Search(spans, lists, i, n);
      if p == 0 then forall j, k | i <= j < |lists| && 0 <= k < |lists[j]| :: !Fits(spans[lists[j][k]], n)
      else exists j ::
        && i <= j < |lists| && (exists k :: FirstAt(spans, lists[j], n, k) && lists[j][k] == p)
        && forall h, k | i <= h < j && 0 <= k < |lists[h]| :: !Fits(spans[lists[h][k]], n)
    decreases |lists| - i
  {
    if i < |lists| {
      FirstFitMeaning(spans, lists[i], n);
      if FirstFit(spans, lists[i], n) == 0 {
        SearchMeaning(spans, lists, i + 1, n);
      }
    }
  }

  lemma ListsInSpans(a: State)
    requires Good(a)
    ensures forall j, k | 0 <= j < |a.lists| && 0 <= k < |a.lists[j]| ::
      a.lists[j][k] in a.spans && a.lists[j][k] != 0 && a.links[a.lists[j][k]].index == j
  {
    forall j, k | 0 <= j < |a.lists| && 0 <= k < |a.lists[j]|
      ensures a.lists[j][k] in a.spans && a.lists[j][k] != 0 && a.links[a.lists[j][k]].index == j
    {
      assert EntryLinked(a.links, a.lists, j, k);
    }
  }

  ghost function Found(a: State, n: nat): (p: Addr)
    requires Good(a)
  {
    ListsInSpans(a);
    Search(a.spans, a.lists, Bucket(n), n)
  }

  /** No free tag anywhere has room for n bytes. */
  ghost predicate NoneFits(a: State, n: nat)
    requires Good(a)
  {
    forall q | FreeAt(a.links, q) :: !Fits(a.spans[q], n)
  }

  /** The search, which starts at the bucket of the request, fails exactly when no free
      tag anywhere fits, and otherwise yields the first fitting tag of the lowest bucket that
      has one. */
  lemma FoundMeaning(a: State, n: nat)
    requires Good(a)
    ensures Found(a, n) == 0 <==> NoneFits(a, n)
    ensures Found(a, n) != 0 ==>
      && FreeAt(a.links, Found(a, n)) && Fits(a.spans[Found(a, n)], n)
      && forall q | FreeAt(a.links, q) && Fits(a.spans[q], n) :: a.links[Found(a, n)].index <= a.links[q].index
    ensures forall j, k | 0 <= j < |a.lists| && 0 <= k < |a.lists[j]| :: a.lists[j][k] in a.spans
    ensures Found(a, n) != 0 ==>
      exists j, k :: 0 <= j < |a.lists| && FirstAt(a.spans, a.lists[j], n, k) && a.lists[j][k] == Found(a, n)
  {
    ListsInSpans(a);
    SearchMeaning(a.spans, a.lists, Bucket(n), n);
    forall q | FreeAt(a.links, q) && Fits(a.spans[q], n)
      ensures Bucket(n) <= a.links[q].index < MAXEXP && q in a.lists[a.links[q].index]
    {
      assert TagPlaced(a.spans, a.links, q);
      assert Filed(a.links, a.lists, q);
      BucketMonotone(n, a.spans[q].realSize - HEADER);
    }
  }

  // ---------- malloc ----------

  /** Requests small enough that the C code's unsigned int arithmetic is exact. */
  predicate Request(n: nat)
  {
    n + HEADER + PAGESIZE <= LIMIT
  }

  function PagesFor(n: nat): (pages: nat)
    ensures pages >= PAGECOUNT && pages * PAGESIZE >= n + HEADER
    ensures Request(n) ==> pages * PAGESIZE < LIMIT
    ensures pages == PAGECOUNT || (pages - 1) * PAGESIZE < n + HEADER
  {
    var usage := n + HEADER;
    var pages := usage / PAGESIZE + if usage % PAGESIZE != 0 then 1 else 0;
    if pages < PAGECOUNT then PAGECOUNT else pages
  }

  /** `run` is what liballoc_alloc would answer: NULL or an unused run of pages. */
  ghost predicate Answer(a: State, n: nat, run: Addr)
  {
    run == 0 || Fresh(a.regions, run, PagesFor(n) * PAGESIZE)
  }

  /** The tag that will hold n bytes, off the lists and with the request noted in it. */
  ghost function Obtain(a: State, n: nat, run: Addr): (r: (State, Addr))
    requires Good(a) && Request(n) && Answer(a, n, run) && (Found(a, n) != 0 || run != 0)
    ensures r.1 != 0 && Ready(r.0, r.1)
    ensures r.0.spans[r.1].size == n && HEADER + n <= r.0.spans[r.1].realSize
    ensures !FreeAt(r.0.links, r.0.spans[r.1].left) && !FreeAt(r.0.links, r.0.spans[r.1].right)
    ensures r.0.live == a.live && r.0.extra == a.extra
    ensures r.0.regions == if Found(a, n) != 0 then a.regions
                           else a.regions[run := Region(PagesFor(n) * PAGESIZE, PagesFor(n))]
  {
    var p := Found(a, n);
    FoundMeaning(a, n);
    if p == 0 then
      AdoptReady(a, run, Region(PagesFor(n) * PAGESIZE, PagesFor(n)), n);
      (Adopt(a, run, Region(PagesFor(n) * PAGESIZE, PagesFor(n)), n), run)
    else
      TakeReady(a, p);
      var b := Take(a, p);
      ResizeReady(b, p, n);
      (b.(spans := b.spans[p := b.spans[p].(size := n)]), p)
  }

  predicate Splits(s: Span, n: nat)
  {
    s.realSize - n - 2 * HEADER >= 256
  }

  /** t cut to n bytes, if at least 256 bytes and a header are left over. */
  ghost function Cut(a: State, t: Addr, n: nat): (b: State)
    requires Ready(a, t) && t != 0 && HEADER + n <= a.spans[t].realSize
    requires !FreeAt(a.links, a.spans[t].right)
    ensures Ready(b, t) && b.spans.Keys >= a.spans.Keys
    ensures b.spans[t].size == a.spans[t].size && HEADER + n <= b.spans[t].realSize
    ensures b.live == a.live && b.extra == a.extra && b.regions == a.regions
  {
    if Splits(a.spans[t], n) then SplitReady(a, t, n); Split(a, t, n) else a
  }

  /** The tag that will be handed out for n bytes, ready for it; 0 if there is none. */
  ghost function Prepared(a: State, n: nat, run: Addr): (r: (State, Addr))
    requires Good(a) && Request(n) && Answer(a, n, run)
    ensures r.1 == 0 <==> Found(a, n) == 0 && run == 0
    ensures r.1 == 0 ==> r.0 == a
    ensures r.1 != 0 ==>
      && Ready(r.0, r.1) && r.0.spans[r.1].size == n && HEADER + n <= r.0.spans[r.1].realSize
      && r.0.live == a.live && r.0.extra == a.extra
      && r.0.regions == if Found(a, n) != 0 then a.regions
                        else a.regions[run := Region(PagesFor(n) * PAGESIZE, PagesFor(n))]
  {
    if Found(a, n) == 0 && run == 0 then (a, 0)
    else
      var (b, t) := Obtain(a, n, run);
      (Cut(b, t, n), t)
  }

  /** malloc keeps the invariant and adds one block of the requested size to the live
      ones; it fails, changing nothing, exactly when no free tag fits and there are no
      pages, and it asks for pages exactly when no free tag fits. */
  ghost function Malloc(a: State, n: nat, run: Addr): (r: (State, Addr))
    requires Good(a) && Request(n) && Answer(a, n, run)
    ensures Good(r.0) && r.0.extra == a.extra
    ensures r.1 == 0 <==> run == 0 && NoneFits(a, n)
    ensures if r.1 == 0 then r.0 == a else r.1 !in a.live && r.0.live == a.live[r.1 := n]
    ensures r.0.regions == if run != 0 && NoneFits(a, n)
                           then a.regions[run := Region(PagesFor(n) * PAGESIZE, PagesFor(n))] else a.regions
  {
    FoundMeaning(a, n);
    var (b, t) := Prepared(a, n, run);
    if t == 0 then (a, 0)
    else
      assert TagShaped(b.spans, b.regions, b.owner, t);
      HandOutReady(b, t, n);
      (b.(live := b.live[t + HEADER := n]), t + HEADER)
  }

  // ---------- free ----------

  lemma ReclaimReady(a: State, x: Addr)
    requires Good(a) && x in a.live
    ensures x > HEADER && Ready(a.(live := a.live - {x}), x - HEADER)
  {
    var b, t := a.(live := a.live - {x}), x - HEADER;
    assert BlockHeld(a.spans, a.live, 0, x);
    assert TagShaped(a.spans, a.regions, a.owner, t);
    assert TagHeld(a.links, a.live, 0, t);
    forall y | y in b.links ensures TagHeld(b.links, b.live, t, y) {
      assert TagHeld(a.links, a.live, 0, y);
    }
    forall y | y in b.live ensures BlockHeld(b.spans, b.live, t, y) {
      assert BlockHeld(a.spans, a.live, 0, y);
    }
  }

  /** The block's tag, merged with its free neighbours. */
  ghost function Coalesced(a: State, x: Addr): (r: (State, Addr))
    requires Good(a) && x in a.live
    ensures r.1 != 0 && Ready(r.0, r.1)
    ensures !FreeAt(r.0.links, r.0.spans[r.1].left) && !FreeAt(r.0.links, r.0.spans[r.1].right)
    ensures r.0.live == a.live - {x} && r.0.regions == a.regions
    ensures r.0.extra == a.extra && r.0.complete == a.complete
  {
    ReclaimReady(a, x);
    var t := x - HEADER;
    var b := a.(live := a.live - {x});
    var (c, l) :=
      if FreeAt(b.links, b.spans[t].left) then MeltLeftReady(b, t); (MeltLeft(b, t), b.spans[t].left) else (b, t);
    if FreeAt(c.links, c.spans[l].right) then MeltRightReady(c, l); (MeltRight(c, l), l) else (c, l)
  }

  /** How many pages liballoc_free is told to take back for a run of n bytes. */
  function PagesOf(n: nat): (pages: nat)
  {
    var pages := n / PAGESIZE + if n % PAGESIZE != 0 then 1 else 0;
    if pages < PAGECOUNT then PAGECOUNT else pages
  }

  /** A coalesced tag goes into its list, or back to the page allocator if it is a whole
      region and there are enough of those already.  The last two components are the
      liballoc_free call, if one is made. */
  ghost function Disposed(a: State, t: Addr): (r: (State, Addr, nat))
    requires Ready(a, t) && t != 0
    requires !FreeAt(a.links, a.spans[t].left) && !FreeAt(a.links, a.spans[t].right)
    ensures Good(r.0) && r.0.live == a.live && r.0.extra == a.extra
    ensures if r.1 == 0 then r.0.regions == a.regions
            else
              && r.1 in a.regions && r.0.regions == a.regions - {r.1}
              && (a.regions[r.1].pages != 0 ==> r.2 == a.regions[r.1].pages)
  {
    var s := a.spans[t];
    assert TagShaped(a.spans, a.regions, a.owner, t);
    assert RegionShaped(a.spans, a.regions, a.owner, a.owner[t]);
    var i := Bucket(s.realSize - HEADER);
    BucketBounds(s.realSize - HEADER);
    if s.left != 0 || s.right != 0 then
      FileTagReady(a, t, i, a.complete, a.extra);
      (FileTag(a, t, i), 0, 0)
    else if a.complete[i] == MAXCOMPLETE then
      WithdrawReady(a, t);
      (Withdraw(a, t), t, PagesOf(s.realSize))
    else
      FileTagReady(a, t, i, a.complete[i := a.complete[i] + 1], a.extra);
      (FileTag(a, t, i).(complete := a.complete[i := a.complete[i] + 1]), 0, 0)
  }

  /** The two outcomes, by definition. */
  lemma DisposedCases(a: State, t: Addr, i: nat)
    requires Ready(a, t) && t != 0
    requires !FreeAt(a.links, a.spans[t].left) && !FreeAt(a.links, a.spans[t].right)
    requires HEADER <= a.spans[t].realSize && i == Bucket(a.spans[t].realSize - HEADER) && i < |a.complete| == MAXEXP
    ensures var whole := a.spans[t].left == 0 && a.spans[t].right == 0;
            Disposed(a, t) ==
            if whole && a.complete[i] == MAXCOMPLETE then (Withdraw(a, t), t, PagesOf(a.spans[t].realSize))
            else if whole then (FileTag(a, t, i).(complete := a.complete[i := a.complete[i] + 1]), 0, 0)
            else (FileTag(a, t, i), 0, 0)
  {
    hide Ready, FreeAt, Withdraw, FileTag;
  }

  /** free keeps the invariant and removes exactly the freed block.  If it calls
      liballoc_free, it gives back a whole region, and, if that region came from
      liballoc_alloc, with the very base and page count it was obtained with. */
  ghost function Free(a: State, x: Addr): (r: (State, Addr, nat))
    requires Good(a) && x in a.live
    ensures Good(r.0) && r.0.live == a.live - {x} && r.0.extra == a.extra
    ensures if r.1 == 0 then r.0.regions == a.regions
            else
              && r.1 in a.regions && r.0.regions == a.regions - {r.1}
              && (a.regions[r.1].pages != 0 ==> r.2 == a.regions[r.1].pages)
  {
    var (b, t) := Coalesced(a, x);
    Disposed(b, t)
  }

  // ---------- realloc and add_region ----------

  /** realloc of a live block to a positive size: a new block, then the old one freed. */
  ghost function Realloc(a: State, x: Addr, n: nat, run: Addr): (r: (State, Addr, Addr, nat))
    requires Good(a) && x in a.live && n > 0 && Request(n) && Answer(a, n, run)
    requires Malloc(a, n, run).1 != 0
    ensures Good(r.0) && r.1 !in a.live && r.0.live == a.live[r.1 := n] - {x} && r.0.extra == a.extra
  {
    var (b, y) := Malloc(a, n, run);
    var (c, base, pages) := Free(b, x);
    (c, y, base, pages)
  }

  ghost function AddRegion(a: State, b: Addr, n: nat): (r: State)
    requires Good(a) && HEADER < n < LIMIT && Fresh(a.regions, b, n)
    ensures Good(r) && r.live == a.live && r.regions == a.regions[b := Region(n, 0)]
    ensures forall i | 0 <= i < MAXEXP :: r.extra[i] == a.extra[i] + if i == Bucket(n - HEADER) then 1 else 0
  {
    var i := Bucket(n - HEADER);
    BucketBounds(n - HEADER);
    AdoptReady(a, b, Region(n, 0), 0);
    var c := Adopt(a, b, Region(n, 0), 0);
    FileTagReady(c, b, i, c.complete, c.extra[i := c.extra[i] + 1]);
    FileTag(c, b, i).(extra := c.extra[i := c.extra[i] + 1])
  }
}
