/** What malloc and free do to the tags of the heap: which are there afterwards, how long they are
    and which of them are free. */
module HeapEffects {
  import opened Arena
  import opened HeapSpec
  import opened HeapRuns

  const SPARE := 256   // with a header, the least that is split off

  /** Tag p is as long and as free as before. */
  ghost predicate Same(a: State, b: State, p: Addr)
  {
    && p in a.spans && p in b.spans && b.spans[p].realSize == a.spans[p].realSize
    && (FreeAt(b.links, p) <==> FreeAt(a.links, p))
  }

  /** How long the tag is that malloc works on: a free one's length, or new pages'. */
  ghost function Offered(a: State, n: nat, t: Addr): nat
    requires Good(a)
  {
    if t in a.spans then a.spans[t].realSize else PagesFor(n) * PAGESIZE
  }

  /** The tag malloc works on: free and fitting, in the lowest list that has such a tag, or the new
      pages if there is none; off the lists, with the others as they were. */
  lemma ObtainTags(a: State, n: nat, run: Addr)
    requires Good(a) && Request(n) && Answer(a, n, run) && (Found(a, n) != 0 || run != 0)
    ensures var (b, t) := Obtain(a, n, run);
            && (if NoneFits(a, n) then t == run && t !in a.spans else FreeAt(a.links, t) && Fits(a.spans[t], n))
            && b.spans.Keys == a.spans.Keys + {t} && b.spans[t].realSize == Offered(a, n, t)
            && !FreeAt(b.links, t)
            && forall p | p in a.spans && p != t :: Same(a, b, p)
  {
    FoundMeaning(a, n);
    var p := Found(a, n);
    if p == 0 {
      AdoptReady(a, run, Region(PagesFor(n) * PAGESIZE, PagesFor(n)), n);
    } else {
      PullLinked(a.links, a.heads, a.lists, p);
    }
  }

  /** From a to b, t of length `size` has become a used tag for n bytes. If at least 256 bytes and a
      header are to spare, everything behind the n bytes is one free tag; if not, t is whole. No
      other tag has changed. */
  ghost predicate CutOut(a: State, b: State, t: Addr, n: nat, size: nat)
  {
    var q := t + HEADER + n;
    && t in b.spans && !FreeAt(b.links, t)
    && (forall p | p in a.spans && p != t :: Same(a, b, p))
    && if size < n + 2 * HEADER + SPARE then b.spans.Keys == a.spans.Keys + {t} && b.spans[t].realSize == size
       else
         && q !in a.spans && b.spans.Keys == a.spans.Keys + {t, q}
         && b.spans[t].realSize == HEADER + n && b.spans[t].right == q
         && b.spans[q].realSize == size - HEADER - n && FreeAt(b.links, q)
  }

  lemma CutTags(a: State, t: Addr, n: nat)
    requires Ready(a, t) && t != 0 && HEADER + n <= a.spans[t].realSize && !FreeAt(a.links, a.spans[t].right)
    ensures CutOut(a, Cut(a, t, n), t, n, a.spans[t].realSize)
  {
    KeysAgree(a, t);
    if Splits(a.spans[t], n) {
      SplitReady(a, t, n);
      SplitViews(a, t, n);
      hide Ready, Split;
    } else {
      hide Ready;
    }
  }

  lemma SplitViews(a: State, t: Addr, n: nat)
    requires Ready(a, t) && t != 0 && HEADER + n + HEADER <= a.spans[t].realSize && !FreeAt(a.links, a.spans[t].right)
    ensures t in a.spans
    ensures var b, q := Split(a, t, n), t + HEADER + n;
            && q !in a.spans && q in b.spans && b.spans[q].realSize == a.spans[t].realSize - HEADER - n
            && FreeAt(b.links, q) && !FreeAt(b.links, t)
            && forall p | p in a.spans && p != t :: Same(a, b, p)
  {
    KeysAgree(a, t);
    SplitLinked(a, t, n);
    hide Ready, Shaped, Linked, Push;
  }

  /** From a to c, t was added or taken off its list. */
  lemma CutAfter(a: State, c: State, b: State, t: Addr, n: nat, size: nat)
    requires c.spans.Keys == a.spans.Keys + {t} && forall p | p in a.spans && p != t :: Same(a, c, p)
    ensures CutOut(c, b, t, n, size) ==> CutOut(a, b, t, n, size)
  {
    if CutOut(c, b, t, n, size) {
      forall p | p in a.spans && p != t ensures Same(a, b, p) {
        assert Same(a, c, p) && Same(c, b, p);
      }
    }
  }

  /** malloc, by its parts. */
  lemma MallocParts(a: State, n: nat, run: Addr)
    requires Good(a) && Request(n) && Answer(a, n, run) && Malloc(a, n, run).1 != 0
    ensures Found(a, n) != 0 || run != 0
    ensures var (c, t), (b, x) := Obtain(a, n, run), Malloc(a, n, run);
            && x == t + HEADER && Ready(c, t) && t != 0
            && HEADER + n <= c.spans[t].realSize && !FreeAt(c.links, c.spans[t].right)
            && b.spans == Cut(c, t, n).spans && b.links == Cut(c, t, n).links
  {
    hide Good, Ready, Obtain, Cut, Found, NoneFits, PagesFor;
    FoundMeaning(a, n);
  }

  /** A successful malloc in terms of the tags: the block is a free tag that fits, or new pages if
      there is none, of which it keeps what it needs. */
  lemma MallocTags(a: State, n: nat, run: Addr)
    requires Good(a) && Request(n) && Answer(a, n, run) && Malloc(a, n, run).1 != 0
    ensures var (b, x) := Malloc(a, n, run);
            var t := x - HEADER;
            && (if NoneFits(a, n) then t == run && t !in a.spans else FreeAt(a.links, t) && Fits(a.spans[t], n))
            && CutOut(a, b, t, n, Offered(a, n, t))
  {
    MallocParts(a, n, run);
    hide Good, Ready, Obtain, Cut, Malloc, Found, PagesFor, Fits, Request, Answer;
    ObtainTags(a, n, run);
    var (c, t) := Obtain(a, n, run);
    CutTags(c, t, n);
    var b, size := Cut(c, t, n), Offered(a, n, t);
    hide Offered, CutOut;
    CutAfter(a, c, b, t, n, size);
    CutViews(a, b, Malloc(a, n, run).0, t, n, size);
  }

  lemma CutViews(a: State, b: State, c: State, t: Addr, n: nat, size: nat)
    requires c.spans == b.spans && c.links == b.links
    ensures CutOut(a, b, t, n, size) ==> CutOut(a, c, t, n, size)
  {
    if CutOut(a, b, t, n, size) {
      forall p | p in a.spans && p != t ensures Same(a, c, p) {
        assert Same(a, b, p);
      }
    }
  }

  /** So no block has as much as 256 bytes and a header more than was asked for. */
  lemma MallocTight(a: State, n: nat, run: Addr)
    requires Good(a) && Request(n) && Answer(a, n, run) && Malloc(a, n, run).1 != 0
    ensures var (b, x) := Malloc(a, n, run);
            x - HEADER in b.spans && HEADER + n <= b.spans[x - HEADER].realSize < n + 2 * HEADER + SPARE
  {
    MallocTags(a, n, run);
    assert BlockHeld(Malloc(a, n, run).0.spans, Malloc(a, n, run).0.live, 0, Malloc(a, n, run).1);
  }

  /** What is left of a new run of pages serves the next request that it fits, without new pages. */
  lemma RemainderServes(a: State, n: nat, run: Addr, m: nat)
    requires Good(a) && Request(n) && Answer(a, n, run) && run != 0 && NoneFits(a, n)
    requires Request(m) && PagesFor(n) * PAGESIZE >= n + HEADER + SPARE + HEADER
    requires PagesFor(n) * PAGESIZE >= n + HEADER + m + 2 * HEADER
    ensures var b := Malloc(a, n, run).0; Answer(b, m, 0) && Malloc(b, m, 0).1 != 0
  {
    hide Malloc, PagesFor, Good, Found, Request;
    MallocTags(a, n, run);
    var (b, x) := Malloc(a, n, run);
    assert FreeAt(b.links, x + n) && Fits(b.spans[x + n], m);
  }

  /** From boot: a hundred bytes from sixteen pages, and then another hundred without any. */
  lemma SecondServed(run: Addr)
    requires run > 0
    ensures Good(Initial()) && Legal(Initial(), DoMalloc(100, run))
    ensures var b := Malloc(Initial(), 100, run).0;
            Legal(b, DoMalloc(100, 0)) && Malloc(b, 100, 0).1 != 0
  {
    InitialGood();
    assert PagesFor(100) == PAGECOUNT;
    RemainderServes(Initial(), 100, run, 100);
  }

  // ---------- free ----------

  /** Where the free memory around a live block's tag begins once the block is freed. */
  ghost function Begin(a: State, t: Addr): Addr
    requires t in a.spans
  {
    if FreeAt(a.links, a.spans[t].left) then a.spans[t].left else t
  }

  /** And where it ends. */
  ghost function End(a: State, t: Addr): Addr
    requires t in a.spans
  {
    var r := a.spans[t].right;
    if FreeAt(a.links, r) && r in a.spans then r + a.spans[r].realSize else t + a.spans[t].realSize
  }

  /** The tags from l up to e, and no others, have made way for a tag l of that length. */
  ghost predicate Merged(a: State, b: State, l: Addr, e: Addr)
  {
    && l in b.spans && b.spans[l].realSize == e - l
    && (forall p | p in a.spans && (p < l || p >= e) :: Same(a, b, p))
    && forall p | p in b.spans && p != l :: p in a.spans && (p < l || p >= e)
  }

  lemma MergedTrans(a: State, b: State, c: State, l: Addr, e: Addr, f: Addr)
    requires Merged(a, b, l, e) && Merged(b, c, l, f) && e <= f
    ensures Merged(a, c, l, f)
  {
    forall p | p in a.spans && (p < l || p >= f) ensures Same(a, c, p) {
      assert Same(a, b, p) && Same(b, c, p);
    }
  }

  /** No tag lies inside the adjoining tags l and t. */
  lemma Between(a: State, l: Addr, t: Addr, p: Addr)
    requires Shaped(a.spans, a.regions, a.owner) && l in a.spans && t in a.spans && p in a.spans
    requires l == t || l + a.spans[l].realSize == t
    ensures l < t + a.spans[t].realSize && (p == l || p == t || p < l || p >= t + a.spans[t].realSize)
  {
    assert TagShaped(a.spans, a.regions, a.owner, t) && TagShaped(a.spans, a.regions, a.owner, l);
    assert TagsApart(a.spans, l, p) && TagsApart(a.spans, t, p) && TagsApart(a.spans, p, t) && TagsApart(a.spans, p, l);
  }

  /** Two adjoining tags have become one. */
  lemma TwoMerged(a: State, b: State, l: Addr, t: Addr)
    requires Shaped(a.spans, a.regions, a.owner) && l in a.spans && t in a.spans && l + a.spans[l].realSize == t
    requires b.spans.Keys == a.spans.Keys - {t} && l != t
    requires b.spans[l].realSize == a.spans[l].realSize + a.spans[t].realSize
    requires forall p | p in b.spans && p != l :: Same(a, b, p)
    ensures Merged(a, b, l, t + a.spans[t].realSize)
  {
    forall p | p in a.spans ensures p == l || p == t || p < l || p >= t + a.spans[t].realSize {
      Between(a, l, t, p);
    }
    Between(a, l, t, t);
    assert TagShaped(a.spans, a.regions, a.owner, t);
  }

  lemma MeltLeftTags(a: State, t: Addr)
    requires Ready(a, t) && t != 0 && FreeAt(a.links, a.spans[t].left)
    ensures var b, l := MeltLeft(a, t), a.spans[t].left;
            && t in a.spans && l in b.spans && b.spans[l].right == a.spans[t].right
            && Merged(a, b, l, t + a.spans[t].realSize)
  {
    var l := a.spans[t].left;
    assert TagShaped(a.spans, a.regions, a.owner, t) && TagShaped(a.spans, a.regions, a.owner, l);
    AbsorbShaped(a.spans, a.regions, a.owner, l);
    DropLinked(a.links, a.heads, a.lists, t);
    PullLinked(a.links - {t}, a.heads, a.lists, l);
    hide Ready, Linked, Pull, TagShaped;
    TwoMerged(a, MeltLeft(a, t), l, t);
  }

  lemma MeltRightTags(a: State, t: Addr)
    requires Ready(a, t) && t != 0 && FreeAt(a.links, a.spans[t].right)
    ensures var r := a.spans[t].right;
            && t in a.spans && r in a.spans && r == t + a.spans[t].realSize
            && Merged(a, MeltRight(a, t), t, r + a.spans[r].realSize)
  {
    var r := a.spans[t].right;
    assert TagShaped(a.spans, a.regions, a.owner, t);
    AbsorbShaped(a.spans, a.regions, a.owner, t);
    PullLinked(a.links, a.heads, a.lists, r);
    hide Ready, Linked, Pull, TagShaped;
    TwoMerged(a, MeltRight(a, t), t, r);
  }

  /** Both melt loops: the tag and its free neighbours have become one. */
  lemma CoalescedTags(a: State, x: Addr)
    requires Good(a) && x in a.live
    ensures x - HEADER in a.spans
    ensures var (c, l), t := Coalesced(a, x), x - HEADER;
            l == Begin(a, t) && Merged(a, c, l, End(a, t))
  {
    ReclaimReady(a, x);
    var t := x - HEADER;
    var b := a.(live := a.live - {x});
    LeftTags(a, b, t);
    hide Good, Ready, MeltLeft, MeltRight, Merged, Same;
    var c, l := b, t;
    if FreeAt(b.links, b.spans[t].left) {
      MeltLeftReady(b, t);
      c, l := MeltLeft(b, t), b.spans[t].left;
    }
    if FreeAt(c.links, c.spans[l].right) {
      MeltRightReady(c, l);
      RightTags(a, c, t, l);
    }
  }

  /** After the first loop. */
  lemma LeftTags(a: State, b: State, t: Addr)
    requires Ready(b, t) && t != 0 && b == a.(live := b.live)
    ensures t in a.spans && Begin(a, t) in a.spans
    ensures var l := Begin(a, t);
            var c := if FreeAt(b.links, b.spans[t].left) then MeltLeft(b, t) else b;
            && Merged(a, c, l, t + a.spans[t].realSize)
            && c.spans[l].right == a.spans[t].right
            && (FreeAt(c.links, a.spans[t].right) <==> FreeAt(a.links, a.spans[t].right))
            && (FreeAt(a.links, a.spans[t].right) ==> a.spans[t].right in a.spans && Same(a, c, a.spans[t].right))
  {
    var l, r := Begin(a, t), a.spans[t].right;
    var c := if FreeAt(b.links, b.spans[t].left) then MeltLeft(b, t) else b;
    assert TagShaped(b.spans, b.regions, b.owner, t);
    if FreeAt(b.links, b.spans[t].left) {
      MeltLeftReady(b, t);
      MeltLeftTags(b, t);
    } else {
      OneMerged(b, t);
    }
    KeysAgree(b, t);
    KeysAgree(c, l);
    hide Ready, MeltLeft, TagShaped;
    SameViews(a, b, c, l, t + a.spans[t].realSize);
    if r in a.spans { assert Same(a, c, r); }
  }

  lemma KeysAgree(a: State, t: Addr)
    requires Ready(a, t)
    ensures a.links.Keys == a.spans.Keys && 0 !in a.spans
  {
  }

  lemma SameViews(a: State, b: State, c: State, l: Addr, e: Addr)
    requires b.spans == a.spans && b.links == a.links && Merged(b, c, l, e)
    ensures Merged(a, c, l, e)
  {
    forall p | p in a.spans && (p < l || p >= e) ensures Same(a, c, p) {
      assert Same(b, c, p);
    }
  }

  lemma OneMerged(a: State, t: Addr)
    requires Ready(a, t) && t != 0 && t in a.spans
    ensures Merged(a, a, t, t + a.spans[t].realSize)
  {
    forall p | p in a.spans ensures p == t || p < t || p >= t + a.spans[t].realSize {
      Between(a, t, t, p);
    }
  }

  /** After the second. */
  lemma RightTags(a: State, c: State, t: Addr, l: Addr)
    requires Ready(c, l) && l != 0 && FreeAt(c.links, c.spans[l].right)
    requires t in a.spans && Merged(a, c, l, t + a.spans[t].realSize) && c.spans[l].right == a.spans[t].right
    requires a.spans[t].right in a.spans && Same(a, c, a.spans[t].right)
    ensures Merged(a, MeltRight(c, l), l, End(a, t))
  {
    MeltRightTags(c, l);
    hide Ready, MeltRight;
    var r := a.spans[t].right;
    MergedTrans(a, c, MeltRight(c, l), l, r, r + a.spans[r].realSize);
  }

  /** A free in terms of the tags: the block's tag and its free neighbours become one free tag, which
      stays, or which is a whole region and goes. No other tag changes. */
  lemma FreeTags(a: State, x: Addr)
    requires Good(a) && x in a.live
    ensures x - HEADER in a.spans
    ensures var (b, base, _), t := Free(a, x), x - HEADER;
            var l, e := Begin(a, t), End(a, t);
            if base == 0 then Merged(a, b, l, e) && FreeAt(b.links, l)
            else
              && base == l && b.spans.Keys == (set p | p in a.spans && (p < l || p >= e))
              && forall p | p in b.spans :: Same(a, b, p)
  {
    CoalescedTags(a, x);
    var (c, l) := Coalesced(a, x);
    var e := End(a, x - HEADER);
    hide Coalesced, Good;
    DisposedTags(a, c, l, e);
  }

  lemma DisposedTags(a: State, c: State, l: Addr, e: Addr)
    requires Ready(c, l) && l != 0 && !FreeAt(c.links, c.spans[l].left) && !FreeAt(c.links, c.spans[l].right)
    requires Merged(a, c, l, e)
    ensures var (b, base, _) := Disposed(c, l);
            if base == 0 then Merged(a, b, l, e) && FreeAt(b.links, l)
            else
              && base == l && b.spans.Keys == (set p | p in a.spans && (p < l || p >= e))
              && forall p | p in b.spans :: Same(a, b, p)
  {
    var (b, base, _) := Disposed(c, l);
    assert TagShaped(c.spans, c.regions, c.owner, l);
    assert RegionShaped(c.spans, c.regions, c.owner, c.owner[l]);
    var i := Bucket(c.spans[l].realSize - HEADER);
    BucketBounds(c.spans[l].realSize - HEADER);
    DisposedCases(c, l, i);
    PushLinked(c.links, c.heads, c.lists, l, i);
    KeysAgree(c, l);
    assert l < e;
    hide Ready, Disposed, TagShaped, RegionShaped, Push, Merged;
    if base == 0 {
      FiledTags(a, c, b, l, e);
    } else {
      WithdrawnTags(a, c, l, e);
    }
  }

  lemma FiledTags(a: State, c: State, b: State, l: Addr, e: Addr)
    requires Merged(a, c, l, e) && l < e && b.spans == c.spans && c.links.Keys == c.spans.Keys == b.links.Keys
    requires FreeAt(b.links, l) && forall p | p in c.links && p != l :: b.links[p].index == c.links[p].index
    ensures Merged(a, b, l, e)
  {
    forall p | p in a.spans && (p < l || p >= e) ensures Same(a, b, p) {
      assert Same(a, c, p);
    }
  }

  lemma WithdrawnTags(a: State, c: State, l: Addr, e: Addr)
    requires Merged(a, c, l, e) && c.links.Keys == c.spans.Keys && l < e
    ensures var b := Withdraw(c, l);
            && b.spans.Keys == (set p | p in a.spans && (p < l || p >= e))
            && forall p | p in b.spans :: Same(a, b, p)
  {
    var b := Withdraw(c, l);
    var rest := set p | p in a.spans && (p < l || p >= e);
    forall p ensures p in b.spans.Keys <==> p in rest {
      if p in rest { assert Same(a, c, p); }
    }
    assert b.spans.Keys == rest;
    forall p | p in b.spans ensures Same(a, b, p) {
      assert Same(a, c, p);
    }
  }
}
