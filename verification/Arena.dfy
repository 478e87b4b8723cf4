/** The state of the liballoc heap as a value, the effect of each allocator
    operation on it, and the invariant that every operation keeps. */
module Arena {

  const HEADER := 48
  const MINEXP := 8
  const MAXEXP := 32
  const MAXCOMPLETE := 5
  const PAGESIZE := 4096
  const PAGECOUNT := 16
  const MAGIC := 0xc001c0de
  const LIMIT := 0x8000_0000

  /** Addresses; 0 is NULL. */
  type Addr = int

  /** The physical half of a boundary tag: its extent and split neighbours. */
  datatype Span = Span(magic: int, size: nat, realSize: nat, left: Addr, right: Addr)

  /** The free-list half of a boundary tag; index -1 means "not in a list". */
  datatype Link = Link(index: int, next: Addr, prev: Addr)

  /** A run of bytes owned by the heap: `pages` pages of liballoc_alloc, or, with
      `pages == 0`, a region handed over by liballoc_add_region. */
  datatype Region = Region(bytes: nat, pages: nat)

  /** `spans`, `links`, `heads` and `complete` are what the C program stores, one map
      entry per boundary tag in use.  The rest explains them: the regions, the region
      of each tag, the free lists as sequences, the blocks handed out and, per bucket,
      the whole free blocks that were never counted. */
  datatype State = State(
    spans: map<Addr, Span>,
    links: map<Addr, Link>,
    heads: seq<Addr>,
    complete: seq<int>,
    regions: map<Addr, Region>,
    owner: map<Addr, Addr>,
    lists: seq<seq<Addr>>,
    live: map<Addr, nat>,
    extra: seq<nat>)

  // ---------- size classes ----------

  function Log2(n: nat): (e: nat)
    requires n >= 1
  {
    if n == 1 then 0 else 1 + Log2(n / 2)
  }

  function Pow2(e: nat): (n: nat)
    ensures n >= 1
  {
    if e == 0 then 1 else 2 * Pow2(e - 1)
  }

  lemma {:induction false} Log2Bounds(n: nat)
    requires n >= 1
    ensures Pow2(Log2(n)) <= n < Pow2(Log2(n) + 1)
  {
    if n > 1 {
      Log2Bounds(n / 2);
    }
  }

  lemma {:induction false} Pow2Monotone(d: nat, e: nat)
    requires d <= e
    ensures Pow2(d) <= Pow2(e)
    decreases e
  {
    if d < e {
      Pow2Monotone(d, e - 1);
    }
  }

  lemma Log2Unique(n: nat, e: nat)
    requires n >= 1
    requires Pow2(e) <= n < Pow2(e + 1)
    ensures Log2(n) == e
  {
    Log2Bounds(n);
    if Log2(n) < e {
      Pow2Monotone(Log2(n) + 1, e);
    } else if e < Log2(n) {
      Pow2Monotone(e + 1, Log2(n));
    }
  }

  lemma {:induction false} Log2Monotone(m: nat, n: nat)
    requires 1 <= m <= n
    ensures Log2(m) <= Log2(n)
    decreases n
  {
    if m > 1 {
      Log2Monotone(m / 2, n / 2);
    }
  }

  /** The bucket of a tag that offers n bytes behind its header: the exponent,
      clamped from below. */
  function Bucket(n: nat): (i: nat)
  {
    if n < 256 then MINEXP else Log2(n)
  }

  lemma BucketBounds(n: nat)
    requires n < 2 * LIMIT
    ensures MINEXP <= Bucket(n) < MAXEXP
  {
    if n >= 256 {
      assert Pow2(10) == 1024 && Pow2(20) == 1048576 && Pow2(30) == 1073741824;
      Log2Monotone(256, n);
      Log2Unique(256, 8);
      Log2Monotone(n, 2 * LIMIT - 1);
      Log2Unique(2 * LIMIT - 1, 31);
    }
  }

  lemma BucketMonotone(m: nat, n: nat)
    requires m <= n
    ensures Bucket(m) <= Bucket(n)
  {
    if m >= 256 {
      Log2Monotone(m, n);
    } else if n >= 256 {
      Log2Monotone(256, n);
      Log2Unique(256, 8);
    }
  }

  // ---------- the invariant ----------

  /** The tag at p lies in its region, touches the region's ends exactly when it has no
      neighbour there, and agrees with its neighbours about who is next to whom. */
  ghost predicate TagShaped(spans: map<Addr, Span>, regions: map<Addr, Region>, owner: map<Addr, Addr>, p: Addr)
  {
    && p > 0 && p in spans && p in owner && owner[p] in regions
    && var s := spans[p];
    && var b := owner[p];
    && s.magic == MAGIC && s.realSize >= HEADER
    && b <= p && p + s.realSize <= b + regions[b].bytes
    && (s.left == 0 <==> p == b)
    && (s.right == 0 <==> p + s.realSize == b + regions[b].bytes)
    && (s.left != 0 ==> s.left in spans && spans[s.left].right == p)
    && (s.right != 0 ==>
          && s.right == p + s.realSize && s.right in spans && spans[s.right].left == p
          && s.right in owner && owner[s.right] == b)
  }

  ghost predicate RegionShaped(spans: map<Addr, Span>, regions: map<Addr, Region>, owner: map<Addr, Addr>, b: Addr)
  {
    && b > 0 && b in regions && b in spans && b in owner
    && regions[b].bytes < LIMIT && owner[b] == b
    && (regions[b].pages != 0 ==>
          regions[b].pages >= PAGECOUNT && regions[b].bytes == regions[b].pages * PAGESIZE)
  }

  ghost predicate TagsApart(spans: map<Addr, Span>, p: Addr, q: Addr)
  {
    p in spans && q in spans && p < q ==> p + spans[p].realSize <= q
  }

  ghost predicate RegionsApart(regions: map<Addr, Region>, b: Addr, c: Addr)
  {
    b in regions && c in regions && b < c ==> b + regions[b].bytes <= c
  }

  ghost predicate Shaped(spans: map<Addr, Span>, regions: map<Addr, Region>, owner: map<Addr, Addr>)
  {
    && owner.Keys == spans.Keys
    && (forall p {:trigger TagShaped(spans, regions, owner, p)} | p in spans ::
          TagShaped(spans, regions, owner, p))
    && (forall b {:trigger RegionShaped(spans, regions, owner, b)} | b in regions ::
          RegionShaped(spans, regions, owner, b))
    && (forall p, q {:trigger TagsApart(spans, p, q)} :: TagsApart(spans, p, q))
    && (forall b, c {:trigger RegionsApart(regions, b, c)} :: RegionsApart(regions, b, c))
  }

  function At(l: seq<Addr>, k: int): Addr
  {
    if 0 <= k < |l| then l[k] else 0
  }

  /** Entry k of list i carries the list's index and the addresses of its neighbours. */
  ghost predicate EntryLinked(links: map<Addr, Link>, lists: seq<seq<Addr>>, i: nat, k: nat)
    requires i < |lists| && k < |lists[i]|
  {
    var p := lists[i][k];
    p in links && links[p] == Link(i, At(lists[i], k + 1), At(lists[i], k - 1))
  }

  predicate Distinct(l: seq<Addr>)
  {
    forall j, k | 0 <= j < k < |l| :: l[j] != l[k]
  }

  /** A tag with an index is in the list of that index; any other has index -1 and no
      list neighbours. */
  ghost predicate Filed(links: map<Addr, Link>, lists: seq<seq<Addr>>, p: Addr)
    requires p in links && |lists| == MAXEXP
  {
    if links[p].index >= 0 then links[p].index < MAXEXP && p in lists[links[p].index]
    else links[p] == Link(-1, 0, 0)
  }

  /** The free lists are exactly the sequences in `lists`: a tag is in list i, once,
      if and only if its index is i. */
  ghost predicate Linked(links: map<Addr, Link>, heads: seq<Addr>, lists: seq<seq<Addr>>)
  {
    && 0 !in links
    && |heads| == |lists| == MAXEXP
    && (forall i | 0 <= i < MAXEXP :: heads[i] == At(lists[i], 0))
    && (forall i, k {:trigger EntryLinked(links, lists, i, k)} | 0 <= i < MAXEXP && 0 <= k < |lists[i]| ::
          EntryLinked(links, lists, i, k))
    && (forall i | 0 <= i < MAXEXP :: Distinct(lists[i]))
    && (forall p {:trigger Filed(links, lists, p)} | p in links :: Filed(links, lists, p))
  }

  /** A free tag sits in the bucket of its size, and its right neighbour is not free. */
  ghost predicate TagPlaced(spans: map<Addr, Span>, links: map<Addr, Link>, p: Addr)
  {
    && p in spans && p in links
    && (links[p].index >= 0 ==>
          && spans[p].realSize >= HEADER && links[p].index == Bucket(spans[p].realSize - HEADER)
          && (spans[p].right in links ==> links[spans[p].right].index < 0))
  }

  ghost predicate Placed(spans: map<Addr, Span>, links: map<Addr, Link>)
  {
    && links.Keys == spans.Keys
    && forall p {:trigger TagPlaced(spans, links, p)} | p in spans :: TagPlaced(spans, links, p)
  }

  /** The free tags of bucket i that fill their region. */
  ghost function Whole(spans: map<Addr, Span>, links: map<Addr, Link>, i: int): set<Addr>
  {
    set p | p in spans && p in links && links[p].index == i && spans[p].left == 0 && spans[p].right == 0
  }

  ghost predicate Counted(spans: map<Addr, Span>, links: map<Addr, Link>, complete: seq<int>, extra: seq<nat>)
  {
    && |complete| == |extra| == MAXEXP
    && forall i | 0 <= i < MAXEXP ::
         complete[i] + extra[i] == |Whole(spans, links, i)| && complete[i] <= MAXCOMPLETE
  }

  /** Tag p is free, or is block p + HEADER, or is t. */
  ghost predicate TagHeld(links: map<Addr, Link>, live: map<Addr, nat>, t: Addr, p: Addr)
  {
    p in links && (p != t ==> (links[p].index < 0 <==> p + HEADER in live))
  }

  /** Block x is tag x - HEADER, is as long as recorded, and fits behind its header. */
  ghost predicate BlockHeld(spans: map<Addr, Span>, live: map<Addr, nat>, t: Addr, x: Addr)
  {
    && x in live && x - HEADER in spans && x - HEADER != t
    && live[x] == spans[x - HEADER].size && HEADER + live[x] <= spans[x - HEADER].realSize
  }

  ghost predicate Held(spans: map<Addr, Span>, links: map<Addr, Link>, live: map<Addr, nat>, t: Addr)
  {
    && (forall p {:trigger TagHeld(links, live, t, p)} | p in links :: TagHeld(links, live, t, p))
    && (forall x {:trigger BlockHeld(spans, live, t, x)} | x in live :: BlockHeld(spans, live, t, x))
  }

  /** The invariant while tag t is in nobody's hands (t == 0: between operations). */
  ghost predicate Ready(a: State, t: Addr)
  {
    && Shaped(a.spans, a.regions, a.owner)
    && Linked(a.links, a.heads, a.lists)
    && Placed(a.spans, a.links)
    && Counted(a.spans, a.links, a.complete, a.extra)
    && Held(a.spans, a.links, a.live, t)
    && (t != 0 ==> t in a.links && a.links[t].index < 0)
  }

  ghost predicate Good(a: State)
  {
    Ready(a, 0)
  }

  // ---------- free-list operations ----------

  function Without(l: seq<Addr>, p: Addr): (r: seq<Addr>)
  {
    if l == [] then [] else if l[0] == p then l[1..] else [l[0]] + Without(l[1..], p)
  }

  lemma {:induction false} WithoutAt(l: seq<Addr>, k: nat)
    requires k < |l| && Distinct(l)
    ensures Without(l, l[k]) == l[..k] + l[k + 1..]
  {
    if k > 0 {
      WithoutAt(l[1..], k - 1);
    }
  }

  /** insert_tag: p becomes the head of list i. */
  function Push(links: map<Addr, Link>, heads: seq<Addr>, p: Addr, i: int): (r: map<Addr, Link>)
    requires 0 <= i < |heads| && p in links && (heads[i] != 0 ==> heads[i] in links)
    ensures r.Keys == links.Keys
  {
    var h := heads[i];
    var l := if h != 0 then links[h := links[h].(prev := p)] else links;
    l[p := Link(i, if h != 0 then h else l[p].next, l[p].prev)]
  }

  lemma HeadLinked(links: map<Addr, Link>, heads: seq<Addr>, lists: seq<seq<Addr>>, i: int)
    requires Linked(links, heads, lists) && 0 <= i < MAXEXP
    ensures heads[i] != 0 ==> heads[i] in links && links[heads[i]].index == i
  {
    if lists[i] != [] {
      assert EntryLinked(links, lists, i, 0);
    }
  }

  lemma PushLinked(links: map<Addr, Link>, heads: seq<Addr>, lists: seq<seq<Addr>>, p: Addr, i: int)
    requires Linked(links, heads, lists) && 0 <= i < MAXEXP && p in links && links[p].index < 0
    ensures heads[i] != 0 ==> heads[i] in links
    ensures Linked(Push(links, heads, p, i), heads[i := p], lists[i := [p] + lists[i]])
    ensures forall q | q in links :: Push(links, heads, p, i)[q].index == if q == p then i else links[q].index
  {
    var l := lists[i];
    assert Filed(links, lists, p);
    if l != [] {
      assert EntryLinked(links, lists, i, 0);
    }
    var links' := Push(links, heads, p, i);
    var lists' := lists[i := [p] + l];
    forall j, k | 0 <= j < MAXEXP && 0 <= k < |lists'[j]|
      ensures EntryLinked(links', lists', j, k)
    {
      if j == i {
        if k > 0 { assert EntryLinked(links, lists, i, k - 1); }
      } else {
        assert EntryLinked(links, lists, j, k);
      }
    }
    assert Distinct(lists'[i]) by {
      forall k | 0 <= k < |l| ensures l[k] != p { assert EntryLinked(links, lists, i, k); }
    }
    forall q | q in links' ensures Filed(links', lists', q) {
      assert Filed(links, lists, q);
      assert lists'[i][0] == p;
      if links[q].index == i { var k :| 0 <= k < |l| && l[k] == q; assert lists'[i][k + 1] == q; }
    }
  }

  /** remove_tag: p leaves the list it is in. */
  function Pull(links: map<Addr, Link>, p: Addr): (r: map<Addr, Link>)
    requires p in links
    requires links[p].prev != 0 ==> links[p].prev in links
    requires links[p].next != 0 ==> links[p].next in links
    ensures r.Keys == links.Keys
  {
    var Link(_, next, prev) := links[p];
    var l := if prev != 0 then links[prev := links[prev].(next := next)] else links;
    var m := if next != 0 then l[next := l[next].(prev := prev)] else l;
    m[p := Link(-1, 0, 0)]
  }

  function PullHeads(links: map<Addr, Link>, heads: seq<Addr>, p: Addr): (r: seq<Addr>)
    requires p in links && 0 <= links[p].index < |heads|
  {
    if heads[links[p].index] == p then heads[links[p].index := links[p].next] else heads
  }

  /** Entry k's links in full, with its neighbours' entries. */
  lemma EntryAround(links: map<Addr, Link>, heads: seq<Addr>, lists: seq<seq<Addr>>, p: Addr) returns (k: nat)
    requires Linked(links, heads, lists) && p in links && links[p].index >= 0
    ensures links[p].index < MAXEXP
    ensures k < |lists[links[p].index]| && lists[links[p].index][k] == p
    ensures EntryLinked(links, lists, links[p].index, k)
    ensures k > 0 ==> EntryLinked(links, lists, links[p].index, k - 1)
    ensures k + 1 < |lists[links[p].index]| ==> EntryLinked(links, lists, links[p].index, k + 1)
    ensures links[p].prev != 0 ==> links[p].prev in links
    ensures links[p].next != 0 ==> links[p].next in links
    ensures Without(lists[links[p].index], p) == lists[links[p].index][..k] + lists[links[p].index][k + 1..]
  {
    assert Filed(links, lists, p);
    var i := links[p].index;
    k :| 0 <= k < |lists[i]| && lists[i][k] == p;
    assert EntryLinked(links, lists, i, k);
    if k > 0 { assert EntryLinked(links, lists, i, k - 1); }
    if k + 1 < |lists[i]| { assert EntryLinked(links, lists, i, k + 1); }
    WithoutAt(lists[i], k);
  }

  lemma PullEntry(links: map<Addr, Link>, lists: seq<seq<Addr>>, lists': seq<seq<Addr>>,
                  i: nat, k: nat, j: nat, m: nat)
    requires |lists| == MAXEXP && i < MAXEXP && k < |lists[i]| && Distinct(lists[i]) && 0 !in links
    requires lists' == lists[i := lists[i][..k] + lists[i][k + 1..]]
    requires j < MAXEXP && m < |lists'[j]|
    requires EntryLinked(links, lists, i, k)
    requires k > 0 ==> EntryLinked(links, lists, i, k - 1)
    requires k + 1 < |lists[i]| ==> EntryLinked(links, lists, i, k + 1)
    requires EntryLinked(links, lists, j, if j == i && m >= k then m + 1 else m)
    ensures EntryLinked(Pull(links, lists[i][k]), lists', j, m)
  {
    var l, l' := lists[i], lists'[i];
    if j == i {
      assert At(l', m + 1) == At(l, if m + 1 < k then m + 1 else m + 2);
      assert At(l', m - 1) == At(l, if m - 1 < k then m - 1 else m);
      if m == k - 1 {
      } else if m == k {
      } else {
      }
    }
  }

  lemma PullFiled(links: map<Addr, Link>, lists: seq<seq<Addr>>, lists': seq<seq<Addr>>, i: nat, k: nat, q: Addr)
    requires |lists| == MAXEXP && i < MAXEXP && k < |lists[i]| && 0 !in links
    requires lists' == lists[i := lists[i][..k] + lists[i][k + 1..]]
    requires EntryLinked(links, lists, i, k)
    requires k > 0 ==> EntryLinked(links, lists, i, k - 1)
    requires k + 1 < |lists[i]| ==> EntryLinked(links, lists, i, k + 1)
    requires q in links && Filed(links, lists, q)
    ensures Pull(links, lists[i][k])[q].index == if q == lists[i][k] then -1 else links[q].index
    ensures Filed(Pull(links, lists[i][k]), lists', q)
  {
    if q != lists[i][k] && links[q].index == i {
      var m :| 0 <= m < |lists[i]| && lists[i][m] == q;
      assert lists'[i][if m < k then m else m - 1] == q;
    }
  }

  lemma PullLinked(links: map<Addr, Link>, heads: seq<Addr>, lists: seq<seq<Addr>>, p: Addr)
    requires Linked(links, heads, lists) && p in links && links[p].index >= 0
    ensures links[p].index < MAXEXP
    ensures links[p].prev != 0 ==> links[p].prev in links
    ensures links[p].next != 0 ==> links[p].next in links
    ensures Linked(Pull(links, p), PullHeads(links, heads, p),
                   lists[links[p].index := Without(lists[links[p].index], p)])
    ensures forall q | q in links :: Pull(links, p)[q].index == if q == p then -1 else links[q].index
  {
    var k := EntryAround(links, heads, lists, p);
    var i := links[p].index;
    var links' := Pull(links, p);
    var lists' := lists[i := lists[i][..k] + lists[i][k + 1..]];
    PullHeadsMatch(links, heads, lists, i, k);
    hide EntryLinked, Pull, PullHeads, Without, At, Distinct;
    forall j, m | 0 <= j < MAXEXP && 0 <= m < |lists'[j]|
      ensures EntryLinked(links', lists', j, m)
    {
      assert EntryLinked(links, lists, j, if j == i && m >= k then m + 1 else m);
      PullEntry(links, lists, lists', i, k, j, m);
    }
    forall q | q in links
      ensures Filed(links', lists', q)
      ensures links'[q].index == if q == p then -1 else links[q].index
    {
      assert Filed(links, lists, q);
      PullFiled(links, lists, lists', i, k, q);
    }
  }

  lemma PullHeadsMatch(links: map<Addr, Link>, heads: seq<Addr>, lists: seq<seq<Addr>>, i: nat, k: nat)
    requires |heads| == |lists| == MAXEXP && i < MAXEXP && k < |lists[i]| && 0 !in links
    requires forall j | 0 <= j < MAXEXP :: heads[j] == At(lists[j], 0) && Distinct(lists[j])
    requires EntryLinked(links, lists, i, k)
    ensures var lists' := lists[i := lists[i][..k] + lists[i][k + 1..]];
            forall j | 0 <= j < MAXEXP ::
              PullHeads(links, heads, lists[i][k])[j] == At(lists'[j], 0) && Distinct(lists'[j])
  {
    var l := lists[i];
    assert k > 0 ==> l[0] != l[k];
    assert Distinct(l[..k] + l[k + 1..]);
  }

  /** A tag in no list may come or go without touching the lists. */
  lemma DropLinked(links: map<Addr, Link>, heads: seq<Addr>, lists: seq<seq<Addr>>, p: Addr)
    requires Linked(links, heads, lists) && p in links && links[p].index < 0
    ensures Linked(links - {p}, heads, lists)
  {
    var links' := links - {p};
    forall i, k | 0 <= i < MAXEXP && 0 <= k < |lists[i]| ensures EntryLinked(links', lists, i, k) {
      assert EntryLinked(links, lists, i, k);
    }
    forall q | q in links' ensures Filed(links', lists, q) {
      assert Filed(links, lists, q);
    }
  }

  lemma JoinLinked(links: map<Addr, Link>, heads: seq<Addr>, lists: seq<seq<Addr>>, p: Addr)
    requires Linked(links, heads, lists) && p !in links && p != 0
    ensures Linked(links[p := Link(-1, 0, 0)], heads, lists)
  {
    var links' := links[p := Link(-1, 0, 0)];
    forall i, k | 0 <= i < MAXEXP && 0 <= k < |lists[i]| ensures EntryLinked(links', lists, i, k) {
      assert EntryLinked(links, lists, i, k);
    }
    forall q | q in links' ensures Filed(links', lists, q) {
      if q != p { assert Filed(links, lists, q); }
    }
  }

  // ---------- operations on the split chains ----------

  /** melt_left and absorb_right: p swallows its right neighbour. */
  function Absorb(spans: map<Addr, Span>, p: Addr): (r: map<Addr, Span>)
    requires p in spans && spans[p].right in spans && spans[p].right != p
    requires var r := spans[spans[p].right].right; r != 0 ==> r in spans && r != spans[p].right
    ensures r.Keys == spans.Keys - {spans[p].right}
  {
    var q := spans[p].right;
    var r := spans[q].right;
    var s := (spans - {q})[p := spans[p].(realSize := spans[p].realSize + spans[q].realSize, right := r)];
    if r != 0 then s[r := s[r].(left := p)] else s
  }

  /** split_tag up to its insert_tag: what lies behind the n bytes after p's header
      becomes a tag of its own.  Its size field is not initialised and never read. */
  function Carve(spans: map<Addr, Span>, p: Addr, n: nat): (r: map<Addr, Span>)
    requires p in spans && HEADER + n <= spans[p].realSize
    requires spans[p].right != 0 ==> spans[p].right in spans
    ensures r.Keys == spans.Keys + {p + HEADER + n}
  {
    var q := p + HEADER + n;
    var r := spans[p].right;
    var rest := spans[p].realSize - HEADER - n;
    var s := spans[q := Span(MAGIC, 0, rest, p, r)];
    var t := if r != 0 then s[r := s[r].(left := q)] else s;
    t[p := spans[p].(right := q, realSize := spans[p].realSize - rest)]
  }

  lemma AbsorbShaped(spans: map<Addr, Span>, regions: map<Addr, Region>, owner: map<Addr, Addr>, p: Addr)
    requires Shaped(spans, regions, owner) && p in spans && spans[p].right != 0
    ensures spans[p].right in spans && spans[p].right > p
    ensures var r := spans[spans[p].right].right; r != 0 ==> r in spans && r > spans[p].right
    ensures Shaped(Absorb(spans, p), regions, owner - {spans[p].right})
  {
    assert TagShaped(spans, regions, owner, p);
    var q := spans[p].right;
    assert TagShaped(spans, regions, owner, q);
    var r := spans[q].right;
    if r != 0 { assert TagShaped(spans, regions, owner, r); }
    AbsorbTags(spans, regions, owner, p);
    var spans' := Absorb(spans, p);
    hide TagShaped;
    forall x, y ensures TagsApart(spans', x, y) {
      assert TagsApart(spans, x, y);
      assert TagsApart(spans, q, y);
    }
    forall c | c in regions ensures RegionShaped(spans', regions, owner - {q}, c) {
      assert RegionShaped(spans, regions, owner, c);
    }
  }

  lemma AbsorbTags(spans: map<Addr, Span>, regions: map<Addr, Region>, owner: map<Addr, Addr>, p: Addr)
    requires Shaped(spans, regions, owner) && p in spans && spans[p].right in spans && spans[p].right > p
    requires var r := spans[spans[p].right].right; r != 0 ==> r in spans && r > spans[p].right
    ensures var spans', owner' := Absorb(spans, p), owner - {spans[p].right};
            forall x {:trigger TagShaped(spans', regions, owner', x)} | x in spans' ::
              TagShaped(spans', regions, owner', x)
  {
    hide TagsApart, RegionsApart, RegionShaped;
    var q := spans[p].right;
    assert TagShaped(spans, regions, owner, p) && TagShaped(spans, regions, owner, q);
    var r := spans[q].right;
    if r != 0 { assert TagShaped(spans, regions, owner, r); }
    var spans' := Absorb(spans, p);
    forall x | x in spans' ensures TagShaped(spans', regions, owner - {q}, x) {
      assert TagShaped(spans, regions, owner, x);
    }
  }

  lemma CarveShaped(spans: map<Addr, Span>, regions: map<Addr, Region>, owner: map<Addr, Addr>, p: Addr, n: nat)
    requires Shaped(spans, regions, owner) && p in spans && HEADER + n + HEADER <= spans[p].realSize
    ensures spans[p].right != 0 ==> spans[p].right in spans
    ensures p + HEADER + n !in spans
    ensures Shaped(Carve(spans, p, n), regions, owner[p + HEADER + n := owner[p]])
  {
    assert TagShaped(spans, regions, owner, p);
    var q := p + HEADER + n;
    assert TagsApart(spans, p, q);
    var r := spans[p].right;
    if r != 0 { assert TagShaped(spans, regions, owner, r); }
    var spans' := Carve(spans, p, n);
    var owner' := owner[q := owner[p]];
    CarveTags(spans, regions, owner, p, n);
    hide TagShaped;
    forall x, y ensures TagsApart(spans', x, y) {
      assert TagsApart(spans, x, y) && TagsApart(spans, p, y) && TagsApart(spans, x, p) && TagsApart(spans, p, x);
    }
    forall c | c in regions ensures RegionShaped(spans', regions, owner', c) {
      assert RegionShaped(spans, regions, owner, c);
    }
  }

  lemma CarveTags(spans: map<Addr, Span>, regions: map<Addr, Region>, owner: map<Addr, Addr>, p: Addr, n: nat)
    requires Shaped(spans, regions, owner) && p in spans && HEADER + n + HEADER <= spans[p].realSize
    requires (spans[p].right != 0 ==> spans[p].right in spans) && p + HEADER + n !in spans && p in owner
    ensures var spans', owner' := Carve(spans, p, n), owner[p + HEADER + n := owner[p]];
            forall x {:trigger TagShaped(spans', regions, owner', x)} | x in spans' ::
              TagShaped(spans', regions, owner', x)
  {
    hide TagsApart, RegionsApart, RegionShaped;
    var q := p + HEADER + n;
    assert TagShaped(spans, regions, owner, p);
    var r := spans[p].right;
    if r != 0 { assert TagShaped(spans, regions, owner, r); }
    var spans', owner' := Carve(spans, p, n), owner[q := owner[p]];
    assert TagShaped(spans', regions, owner', q) && TagShaped(spans', regions, owner', p);
    forall x | x in spans && x != p ensures TagShaped(spans', regions, owner', x) {
      assert TagShaped(spans, regions, owner, x);
    }
  }

  /** The run of n bytes at b lies outside every region. */
  ghost predicate Fresh(regions: map<Addr, Region>, b: Addr, n: nat)
  {
    b > 0 && forall c | c in regions :: b + n <= c || c + regions[c].bytes <= b
  }

  lemma AdoptShaped(spans: map<Addr, Span>, regions: map<Addr, Region>, owner: map<Addr, Addr>,
                    b: Addr, region: Region, size: nat)
    requires Shaped(spans, regions, owner) && Fresh(regions, b, region.bytes) && HEADER <= region.bytes < LIMIT
    requires region.pages != 0 ==> region.pages >= PAGECOUNT && region.bytes == region.pages * PAGESIZE
    ensures b !in spans
    ensures Shaped(spans[b := Span(MAGIC, size, region.bytes, 0, 0)], regions[b := region], owner[b := b])
  {
    var spans' := spans[b := Span(MAGIC, size, region.bytes, 0, 0)];
    var regions', owner' := regions[b := region], owner[b := b];
    forall x | x in spans
      ensures TagShaped(spans, regions, owner, x) && owner[x] in regions
      ensures x + spans[x].realSize <= b || b + region.bytes <= x
    {
      assert TagShaped(spans, regions, owner, x);
    }
    forall x | x in spans' ensures TagShaped(spans', regions', owner', x) {
      if x != b { assert TagShaped(spans, regions, owner, x); }
    }
    forall x, y ensures TagsApart(spans', x, y) {
      assert TagsApart(spans, x, y);
    }
    forall r | r in regions' ensures RegionShaped(spans', regions', owner', r) {
      if r != b { assert RegionShaped(spans, regions, owner, r); }
    }
    forall x, y ensures RegionsApart(regions', x, y) {
      assert RegionsApart(regions, x, y);
    }
  }

  lemma WithdrawShaped(spans: map<Addr, Span>, regions: map<Addr, Region>, owner: map<Addr, Addr>, b: Addr)
    requires Shaped(spans, regions, owner) && b in spans && spans[b].left == 0 && spans[b].right == 0
    ensures b in regions && regions[b].bytes == spans[b].realSize
    ensures Shaped(spans - {b}, regions - {b}, owner - {b})
  {
    assert TagShaped(spans, regions, owner, b);
    var spans', regions', owner' := spans - {b}, regions - {b}, owner - {b};
    forall x | x in spans' ensures TagShaped(spans', regions', owner', x) {
      assert TagShaped(spans, regions, owner, x);
      assert RegionShaped(spans, regions, owner, owner[x]);
      assert TagsApart(spans, b, x) && TagsApart(spans, x, b);
    }
    forall x, y ensures TagsApart(spans', x, y) {
      assert TagsApart(spans, x, y);
    }
    forall r | r in regions' ensures RegionShaped(spans', regions', owner', r) {
      assert RegionShaped(spans, regions, owner, r);
    }
    forall x, y ensures RegionsApart(regions', x, y) {
      assert RegionsApart(regions, x, y);
    }
  }

  // ---------- coalescing ----------

  /** links' gives every tag but q the index it had, except that p is in no list. */
  ghost predicate Unfiled(links: map<Addr, Link>, links': map<Addr, Link>, p: Addr, q: Addr)
  {
    && links'.Keys == links.Keys - {q} && p in links' && links'[p].index < 0
    && forall x | x in links' && x != p :: links'[x].index == links[x].index
  }

  lemma AbsorbPlaced(spans: map<Addr, Span>, regions: map<Addr, Region>, owner: map<Addr, Addr>,
                     links: map<Addr, Link>, links': map<Addr, Link>, p: Addr)
    requires Shaped(spans, regions, owner) && Placed(spans, links)
    requires p in spans && spans[p].right in spans && spans[p].right != p
    requires var r := spans[spans[p].right].right; r != 0 ==> r in spans && r != spans[p].right
    requires Unfiled(links, links', p, spans[p].right)
    ensures Placed(Absorb(spans, p), links')
  {
    var spans' := Absorb(spans, p);
    assert TagShaped(spans, regions, owner, p);
    forall x | x in spans' ensures TagPlaced(spans', links', x) {
      assert TagPlaced(spans, links, x);
      assert TagShaped(spans, regions, owner, x);
    }
  }

  lemma AbsorbWhole(spans: map<Addr, Span>, regions: map<Addr, Region>, owner: map<Addr, Addr>,
                    links: map<Addr, Link>, links': map<Addr, Link>, p: Addr, i: nat)
    requires Shaped(spans, regions, owner) && links.Keys == spans.Keys
    requires p in spans && spans[p].right in spans && spans[p].right != p
    requires var r := spans[spans[p].right].right; r != 0 ==> r in spans && r != spans[p].right
    requires Unfiled(links, links', p, spans[p].right)
    ensures Whole(Absorb(spans, p), links', i) == Whole(spans, links, i)
  {
    var q := spans[p].right;
    assert TagShaped(spans, regions, owner, p);
    assert TagShaped(spans, regions, owner, q);
    if spans[q].right != 0 { assert TagShaped(spans, regions, owner, spans[q].right); }
    var spans' := Absorb(spans, p);
    forall x ensures x in Whole(spans', links', i) <==> x in Whole(spans, links, i) {
      if x in spans { assert TagShaped(spans, regions, owner, x); }
    }
  }

  predicate FreeAt(links: map<Addr, Link>, p: Addr)
  {
    p in links && links[p].index >= 0
  }

  /** One round of the "melt left" loop: t disappears into its free left neighbour,
      which is taken off its list. */
  ghost function MeltLeft(a: State, t: Addr): (b: State)
    requires Ready(a, t) && t != 0 && FreeAt(a.links, a.spans[t].left)
  {
    var l := a.spans[t].left;
    var i := a.links[l].index;
    assert TagShaped(a.spans, a.regions, a.owner, t);
    AbsorbShaped(a.spans, a.regions, a.owner, l);
    DropLinked(a.links, a.heads, a.lists, t);
    PullLinked(a.links - {t}, a.heads, a.lists, l);
    a.(spans := Absorb(a.spans, l), owner := a.owner - {t},
       links := Pull(a.links - {t}, l), heads := PullHeads(a.links - {t}, a.heads, l),
       lists := a.lists[i := Without(a.lists[i], l)])
  }

  lemma MeltLeftReady(a: State, t: Addr)
    requires Ready(a, t) && t != 0 && FreeAt(a.links, a.spans[t].left)
    ensures Ready(MeltLeft(a, t), a.spans[t].left)
    ensures a.spans[t].left != 0 && !FreeAt(MeltLeft(a, t).links, MeltLeft(a, t).spans[a.spans[t].left].left)
  {
    var l := a.spans[t].left;
    var b := MeltLeft(a, t);
    assert TagShaped(a.spans, a.regions, a.owner, t);
    AbsorbShaped(a.spans, a.regions, a.owner, l);
    DropLinked(a.links, a.heads, a.lists, t);
    PullLinked(a.links - {t}, a.heads, a.lists, l);
    assert Unfiled(a.links, b.links, l, t);
    AbsorbPlaced(a.spans, a.regions, a.owner, a.links, b.links, l);
    forall i | 0 <= i < MAXEXP ensures Whole(b.spans, b.links, i) == Whole(a.spans, a.links, i) {
      AbsorbWhole(a.spans, a.regions, a.owner, a.links, b.links, l, i);
    }
    assert Counted(b.spans, b.links, b.complete, b.extra);
    MeltHeld(a, b, t, l, t);
    assert TagShaped(a.spans, a.regions, a.owner, l);
    if a.spans[l].left != 0 { assert TagPlaced(a.spans, a.links, a.spans[l].left); }
  }

  /** Merging q into p, one of which is t and neither of which is a block, leaves the
      blocks as they are. */
  lemma MeltHeld(a: State, b: State, t: Addr, p: Addr, q: Addr)
    requires Ready(a, t) && b.live == a.live
    requires p in a.spans && a.spans[p].right == q && q in a.spans && q != p
    requires var r := a.spans[q].right; r != 0 ==> r in a.spans && r != q
    requires b.spans == Absorb(a.spans, p) && Unfiled(a.links, b.links, p, q)
    requires (p == t || a.links[p].index >= 0) && (q == t || a.links[q].index >= 0) && (p == t || q == t)
    ensures Held(b.spans, b.links, b.live, p)
  {
    forall x | x in b.links ensures TagHeld(b.links, b.live, p, x) {
      assert TagHeld(a.links, a.live, t, x);
    }
    forall x | x in b.live ensures BlockHeld(b.spans, b.live, p, x) {
      assert BlockHeld(a.spans, a.live, t, x);
      assert TagHeld(a.links, a.live, t, p) && TagHeld(a.links, a.live, t, q);
    }
  }

  /** One round of the "melt right" loop: t swallows its free right neighbour, which is
      first taken off its list. */
  ghost function MeltRight(a: State, t: Addr): (b: State)
    requires Ready(a, t) && t != 0 && FreeAt(a.links, a.spans[t].right)
  {
    var r := a.spans[t].right;
    var i := a.links[r].index;
    assert TagShaped(a.spans, a.regions, a.owner, t);
    AbsorbShaped(a.spans, a.regions, a.owner, t);
    PullLinked(a.links, a.heads, a.lists, r);
    a.(spans := Absorb(a.spans, t), owner := a.owner - {r},
       links := Pull(a.links, r) - {r}, heads := PullHeads(a.links, a.heads, r),
       lists := a.lists[i := Without(a.lists[i], r)])
  }

  lemma MeltRightReady(a: State, t: Addr)
    requires Ready(a, t) && t != 0 && FreeAt(a.links, a.spans[t].right)
    ensures Ready(MeltRight(a, t), t)
    ensures !FreeAt(MeltRight(a, t).links, MeltRight(a, t).spans[t].right)
    ensures MeltRight(a, t).spans[t].left == a.spans[t].left
    ensures FreeAt(MeltRight(a, t).links, a.spans[t].left) ==> FreeAt(a.links, a.spans[t].left)
  {
    var r := a.spans[t].right;
    var b := MeltRight(a, t);
    assert TagShaped(a.spans, a.regions, a.owner, t);
    AbsorbShaped(a.spans, a.regions, a.owner, t);
    PullLinked(a.links, a.heads, a.lists, r);
    DropLinked(Pull(a.links, r), b.heads, b.lists, r);
    assert Unfiled(a.links, b.links, t, r);
    assert TagShaped(a.spans, a.regions, a.owner, r) && TagPlaced(a.spans, a.links, r);
    hide Linked, Pull, PullHeads, EntryLinked;
    AbsorbPlaced(a.spans, a.regions, a.owner, a.links, b.links, t);
    forall i | 0 <= i < MAXEXP ensures Whole(b.spans, b.links, i) == Whole(a.spans, a.links, i) {
      AbsorbWhole(a.spans, a.regions, a.owner, a.links, b.links, t, i);
    }
    hide Whole, TagShaped, TagPlaced;
    MeltHeld(a, b, t, t, r);
  }

  // ---------- filing a tag, and giving a region back ----------

  ghost function FileTag(a: State, t: Addr, i: nat): (b: State)
    requires Ready(a, t) && t != 0 && i < MAXEXP
  {
    PushLinked(a.links, a.heads, a.lists, t, i);
    a.(links := Push(a.links, a.heads, t, i), heads := a.heads[i := t], lists := a.lists[i := [t] + a.lists[i]])
  }

  /** links' gives every tag but t the index it had. */
  ghost predicate Reindexed(links: map<Addr, Link>, links': map<Addr, Link>, t: Addr)
  {
    && links'.Keys == links.Keys && t in links
    && forall x | x in links && x != t :: links'[x].index == links[x].index
  }

  lemma ReindexPlaced(spans: map<Addr, Span>, regions: map<Addr, Region>, owner: map<Addr, Addr>,
                      links: map<Addr, Link>, links': map<Addr, Link>, t: Addr)
    requires Shaped(spans, regions, owner) && Placed(spans, links) && Reindexed(links, links', t)
    requires links'[t].index >= 0 ==>
      && spans[t].realSize >= HEADER && links'[t].index == Bucket(spans[t].realSize - HEADER)
      && !FreeAt(links, spans[t].left) && !FreeAt(links, spans[t].right)
    ensures Placed(spans, links')
  {
    assert TagShaped(spans, regions, owner, t);
    forall x | x in spans ensures TagPlaced(spans, links', x) {
      assert TagPlaced(spans, links, x);
      assert TagShaped(spans, regions, owner, x);
    }
  }

  lemma ReindexWhole(spans: map<Addr, Span>, links: map<Addr, Link>, links': map<Addr, Link>, t: Addr, j: int)
    requires links.Keys == spans.Keys && Reindexed(links, links', t)
    ensures Whole(spans, links', j) - {t} == Whole(spans, links, j) - {t}
    ensures var alone := spans[t].left == 0 && spans[t].right == 0;
      |Whole(spans, links', j)| - (if alone && links'[t].index == j then 1 else 0)
      == |Whole(spans, links, j)| - (if alone && links[t].index == j then 1 else 0)
  {
    var was, now := Whole(spans, links, j), Whole(spans, links', j);
    forall x | x != t ensures x in now <==> x in was {
      assert x in links ==> links'[x].index == links[x].index;
    }
    assert t in now ==> now == now - {t} + {t};
    assert t !in now ==> now == now - {t};
    assert t in was ==> was == was - {t} + {t};
    assert t !in was ==> was == was - {t};
  }

  lemma ReindexHeld(a: State, b: State, t: Addr)
    requires Reindexed(a.links, b.links, t) && b.spans == a.spans && b.live == a.live
    requires t != 0 && 0 !in a.links && a.links.Keys == a.spans.Keys
    requires a.links[t].index >= 0 ==> b.links[t].index < 0 && Held(a.spans, a.links, a.live, 0)
    requires a.links[t].index < 0 ==> b.links[t].index >= 0 && Held(a.spans, a.links, a.live, t)
    ensures Held(b.spans, b.links, b.live, if b.links[t].index >= 0 then 0 else t)
  {
    var was, now := if a.links[t].index >= 0 then 0 else t, if b.links[t].index >= 0 then 0 else t;
    assert TagHeld(a.links, a.live, was, t);
    assert t + HEADER in a.live ==> BlockHeld(a.spans, a.live, was, t + HEADER);
    forall x | x in b.links ensures TagHeld(b.links, b.live, now, x) {
      assert TagHeld(a.links, a.live, was, x);
    }
    forall x | x in b.live ensures BlockHeld(b.spans, b.live, now, x) {
      assert BlockHeld(a.spans, a.live, was, x);
    }
  }

  /** A tag between non-free neighbours may be filed in its bucket; if it fills its
      region, either the count or the uncounted surplus grows by one. */
  lemma FileTagReady(a: State, t: Addr, i: nat, complete: seq<int>, extra: seq<nat>)
    requires Ready(a, t) && t != 0
    requires a.spans[t].realSize >= HEADER && i < MAXEXP && i == Bucket(a.spans[t].realSize - HEADER)
    requires !FreeAt(a.links, a.spans[t].left) && !FreeAt(a.links, a.spans[t].right)
    requires |complete| == |extra| == MAXEXP
    requires forall j | 0 <= j < MAXEXP ::
      && complete[j] <= MAXCOMPLETE
      && (complete[j] + extra[j] == a.complete[j] + a.extra[j]
          + if j == i && a.spans[t].left == 0 && a.spans[t].right == 0 then 1 else 0)
    ensures Good(FileTag(a, t, i).(complete := complete, extra := extra))
  {
    var b := FileTag(a, t, i);
    PushLinked(a.links, a.heads, a.lists, t, i);
    ReindexPlaced(a.spans, a.regions, a.owner, a.links, b.links, t);
    forall j | 0 <= j < MAXEXP
      ensures complete[j] + extra[j] == |Whole(b.spans, b.links, j)| && complete[j] <= MAXCOMPLETE
    {
      ReindexWhole(a.spans, a.links, b.links, t, j);
    }
    ReindexHeld(a, b, t);
  }

  function Withdraw(a: State, b: Addr): (c: State)
  {
    a.(spans := a.spans - {b}, links := a.links - {b}, regions := a.regions - {b}, owner := a.owner - {b})
  }

  lemma WithdrawReady(a: State, t: Addr)
    requires Ready(a, t) && t != 0 && a.spans[t].left == 0 && a.spans[t].right == 0
    ensures t in a.regions && a.regions[t].bytes == a.spans[t].realSize
    ensures Good(Withdraw(a, t))
  {
    var b := Withdraw(a, t);
    WithdrawShaped(a.spans, a.regions, a.owner, t);
    DropLinked(a.links, a.heads, a.lists, t);
    assert TagShaped(a.spans, a.regions, a.owner, t);
    forall x | x in b.spans ensures TagPlaced(b.spans, b.links, x) {
      assert TagPlaced(a.spans, a.links, x);
    }
    forall j | 0 <= j < MAXEXP ensures Whole(b.spans, b.links, j) == Whole(a.spans, a.links, j) {}
    forall x | x in b.links ensures TagHeld(b.links, b.live, 0, x) {
      assert TagHeld(a.links, a.live, t, x);
    }
    forall x | x in b.live ensures BlockHeld(b.spans, b.live, 0, x) {
      assert BlockHeld(a.spans, a.live, t, x);
    }
    assert 0 !in b.spans;
  }

  // ---------- obtaining a tag ----------

  /** A free tag leaves its list; a whole block also leaves the count. */
  ghost function Take(a: State, t: Addr): (b: State)
    requires Good(a) && FreeAt(a.links, t)
  {
    var i := a.links[t].index;
    PullLinked(a.links, a.heads, a.lists, t);
    a.(links := Pull(a.links, t), heads := PullHeads(a.links, a.heads, t),
       lists := a.lists[i := Without(a.lists[i], t)],
       complete := if a.spans[t].left == 0 && a.spans[t].right == 0
                   then a.complete[i := a.complete[i] - 1] else a.complete)
  }

  lemma TakeReady(a: State, t: Addr)
    requires Good(a) && FreeAt(a.links, t)
    ensures t != 0 && Ready(Take(a, t), t)
    ensures !FreeAt(Take(a, t).links, a.spans[t].left) && !FreeAt(Take(a, t).links, a.spans[t].right)
  {
    var b := Take(a, t);
    PullLinked(a.links, a.heads, a.lists, t);
    assert TagShaped(a.spans, a.regions, a.owner, t);
    ReindexPlaced(a.spans, a.regions, a.owner, a.links, b.links, t);
    forall j | 0 <= j < MAXEXP
      ensures b.complete[j] + b.extra[j] == |Whole(b.spans, b.links, j)| && b.complete[j] <= MAXCOMPLETE
    {
      ReindexWhole(a.spans, a.links, b.links, t, j);
    }
    ReindexHeld(a, b, t);
    assert TagPlaced(a.spans, a.links, t);
    if a.spans[t].left != 0 { assert TagPlaced(a.spans, a.links, a.spans[t].left); }
  }

  function Adopt(a: State, b: Addr, region: Region, size: nat): (c: State)
  {
    a.(spans := a.spans[b := Span(MAGIC, size, region.bytes, 0, 0)],
       links := a.links[b := Link(-1, 0, 0)],
       regions := a.regions[b := region],
       owner := a.owner[b := b])
  }

  lemma AdoptReady(a: State, b: Addr, region: Region, size: nat)
    requires Good(a) && Fresh(a.regions, b, region.bytes) && HEADER <= region.bytes < LIMIT
    requires region.pages != 0 ==> region.pages >= PAGECOUNT && region.bytes == region.pages * PAGESIZE
    ensures b !in a.spans && b + HEADER !in a.live && 0 !in a.links
    ensures Ready(Adopt(a, b, region, size), b)
  {
    var c := Adopt(a, b, region, size);
    AdoptShaped(a.spans, a.regions, a.owner, b, region, size);
    JoinLinked(a.links, a.heads, a.lists, b);
    forall x | x in c.spans ensures TagPlaced(c.spans, c.links, x) {
      if x != b {
        assert TagPlaced(a.spans, a.links, x);
        assert TagShaped(a.spans, a.regions, a.owner, x);
      }
    }
    forall j | 0 <= j < MAXEXP ensures Whole(c.spans, c.links, j) == Whole(a.spans, a.links, j) {}
    forall x | x in c.links ensures TagHeld(c.links, c.live, b, x) {
      if x != b { assert TagHeld(a.links, a.live, 0, x); }
    }
    forall x | x in c.live ensures BlockHeld(c.spans, c.live, b, x) {
      assert BlockHeld(a.spans, a.live, 0, x);
    }
    assert b + HEADER in a.live ==> BlockHeld(a.spans, a.live, 0, b + HEADER);
  }

  // ---------- cutting a tag to size and handing it out ----------

  /** The list of what is left of a tag behind n payload bytes. */
  function RestClass(spans: map<Addr, Span>, t: Addr, n: nat): (i: nat)
    requires t in spans && HEADER + n + HEADER <= spans[t].realSize
  {
    Bucket(spans[t].realSize - HEADER - n - HEADER)
  }

  /** split_tag: everything behind the first n payload bytes of t becomes a free tag. */
  ghost function Split(a: State, t: Addr, n: nat): (b: State)
    requires Ready(a, t) && t != 0 && HEADER + n + HEADER <= a.spans[t].realSize
    requires !FreeAt(a.links, a.spans[t].right)
  {
    var q, i := t + HEADER + n, RestClass(a.spans, t, n);
    SplitLinked(a, t, n);
    a.(spans := Carve(a.spans, t, n), owner := a.owner[q := a.owner[t]],
       links := Push(a.links[q := Link(-1, 0, 0)], a.heads, q, i),
       heads := a.heads[i := q], lists := a.lists[i := [q] + a.lists[i]])
  }

  /** The chain and the lists after the cut. */
  lemma SplitLinked(a: State, t: Addr, n: nat)
    requires Shaped(a.spans, a.regions, a.owner) && Linked(a.links, a.heads, a.lists) && a.links.Keys == a.spans.Keys
    requires t in a.spans && HEADER + n + HEADER <= a.spans[t].realSize
    ensures a.spans[t].right != 0 ==> a.spans[t].right in a.spans
    ensures var q, i, joined := t + HEADER + n, RestClass(a.spans, t, n), a.links[t + HEADER + n := Link(-1, 0, 0)];
            && q !in a.spans && i < MAXEXP == |a.heads| == |a.lists| && t in a.owner
            && (a.heads[i] != 0 ==> a.heads[i] in joined)
            && Shaped(Carve(a.spans, t, n), a.regions, a.owner[q := a.owner[t]])
            && Linked(Push(joined, a.heads, q, i), a.heads[i := q], a.lists[i := [q] + a.lists[i]])
            && forall x | x in joined :: Push(joined, a.heads, q, i)[x].index == if x == q then i else joined[x].index
  {
    var q := t + HEADER + n;
    assert TagShaped(a.spans, a.regions, a.owner, t);
    assert RegionShaped(a.spans, a.regions, a.owner, a.owner[t]);
    BucketBounds(a.spans[t].realSize - HEADER - n - HEADER);
    CarveShaped(a.spans, a.regions, a.owner, t, n);
    hide Shaped, Carve;
    JoinLinked(a.links, a.heads, a.lists, q);
    PushLinked(a.links[q := Link(-1, 0, 0)], a.heads, a.lists, q, RestClass(a.spans, t, n));
    assert |a.heads| == |a.lists| == MAXEXP;
    hide Linked, Push;
  }

  lemma SplitReady(a: State, t: Addr, n: nat)
    requires Ready(a, t) && t != 0 && HEADER + n + HEADER <= a.spans[t].realSize
    requires !FreeAt(a.links, a.spans[t].right)
    ensures var b := Split(a, t, n);
            && Ready(b, t) && b.spans.Keys == a.spans.Keys + {t + HEADER + n}
            && b.spans[t] == a.spans[t].(realSize := HEADER + n, right := t + HEADER + n)
            && b.live == a.live && b.extra == a.extra && b.regions == a.regions
  {
    hide Shaped, Linked, Counted, Held;
    SplitLinked(a, t, n);
    var b, q, i := Split(a, t, n), t + HEADER + n, RestClass(a.spans, t, n);
    SplitPlaced(a, b, t, q, i);
    hide Placed;
    SplitCounted(a, b, t, q, i);
    SplitHeld(a, b, t, q, i);
  }

  lemma SplitCounted(a: State, b: State, t: Addr, q: Addr, i: nat)
    requires Shaped(a.spans, a.regions, a.owner) && a.links.Keys == a.spans.Keys
    requires t in a.spans && t + HEADER <= q < t + a.spans[t].realSize && q !in a.spans
    requires a.links[t].index < 0
    requires a.spans[t].right != 0 ==> a.spans[t].right in a.spans
    requires b.spans == Carve(a.spans, t, q - t - HEADER) && b.links.Keys == a.links.Keys + {q}
    requires forall x | x in b.links :: b.links[x].index == if x == q then i else a.links[x].index
    requires Counted(a.spans, a.links, a.complete, a.extra) && b.complete == a.complete && b.extra == a.extra
    ensures Counted(b.spans, b.links, b.complete, b.extra)
  {
    forall j | 0 <= j < MAXEXP ensures Whole(b.spans, b.links, j) == Whole(a.spans, a.links, j) {
      SplitWhole(a, b, t, q, i, j);
    }
  }

  lemma SplitWhole(a: State, b: State, t: Addr, q: Addr, i: nat, j: nat)
    requires Shaped(a.spans, a.regions, a.owner) && a.links.Keys == a.spans.Keys
    requires t in a.spans && t + HEADER <= q < t + a.spans[t].realSize && q !in a.spans
    requires a.links[t].index < 0
    requires a.spans[t].right != 0 ==> a.spans[t].right in a.spans
    requires b.spans == Carve(a.spans, t, q - t - HEADER) && b.links.Keys == a.links.Keys + {q}
    requires forall x | x in b.links :: b.links[x].index == if x == q then i else a.links[x].index
    ensures Whole(b.spans, b.links, j) == Whole(a.spans, a.links, j)
  {
    assert TagShaped(a.spans, a.regions, a.owner, t);
    forall x ensures x in Whole(b.spans, b.links, j) <==> x in Whole(a.spans, a.links, j) {
      if x in a.spans { assert TagShaped(a.spans, a.regions, a.owner, x); }
    }
  }

  lemma SplitHeld(a: State, b: State, t: Addr, q: Addr, i: nat)
    requires Held(a.spans, a.links, a.live, t) && b.live == a.live && a.links.Keys == a.spans.Keys
    requires t in a.spans && t + HEADER <= q <= t + a.spans[t].realSize && q !in a.spans
    requires a.spans[t].right != 0 ==> a.spans[t].right in a.spans
    requires b.spans == Carve(a.spans, t, q - t - HEADER) && b.links.Keys == a.links.Keys + {q}
    requires forall x | x in b.links :: b.links[x].index == if x == q then i else a.links[x].index
    ensures Held(b.spans, b.links, b.live, t)
  {
    assert q + HEADER in a.live ==> BlockHeld(a.spans, a.live, t, q + HEADER);
    forall x | x in b.links ensures TagHeld(b.links, b.live, t, x) {
      if x != q { assert TagHeld(a.links, a.live, t, x); }
    }
    forall x | x in b.live ensures BlockHeld(b.spans, b.live, t, x) {
      assert BlockHeld(a.spans, a.live, t, x);
    }
  }

  lemma SplitPlaced(a: State, b: State, t: Addr, q: Addr, i: nat)
    requires Shaped(a.spans, a.regions, a.owner) && Placed(a.spans, a.links)
    requires t in a.spans && q == t + HEADER + (q - t - HEADER) && t + HEADER <= q && q !in a.spans
    requires q + HEADER <= t + a.spans[t].realSize && a.links[t].index < 0
    requires !FreeAt(a.links, a.spans[t].right)
    requires a.spans[t].right != 0 ==> a.spans[t].right in a.spans
    requires b.spans == Carve(a.spans, t, q - t - HEADER) && b.links.Keys == a.links.Keys + {q}
    requires i == Bucket(t + a.spans[t].realSize - q - HEADER)
    requires forall x | x in b.links :: b.links[x].index == if x == q then i else a.links[x].index
    ensures Placed(b.spans, b.links)
  {
    assert TagShaped(a.spans, a.regions, a.owner, t);
    forall x | x in b.spans ensures TagPlaced(b.spans, b.links, x) {
      if x != q {
        assert TagPlaced(a.spans, a.links, x);
        assert TagShaped(a.spans, a.regions, a.owner, x);
      }
    }
  }

  lemma HandOutReady(a: State, t: Addr, n: nat)
    requires Ready(a, t) && t != 0 && HEADER + n <= a.spans[t].realSize && a.spans[t].size == n
    ensures Good(a.(live := a.live[t + HEADER := n]))
    ensures t + HEADER !in a.live
  {
    var b := a.(live := a.live[t + HEADER := n]);
    forall x | x in b.links ensures TagHeld(b.links, b.live, 0, x) {
      assert TagHeld(a.links, a.live, t, x);
    }
    forall x | x in b.live ensures BlockHeld(b.spans, b.live, 0, x) {
      if x != t + HEADER { assert BlockHeld(a.spans, a.live, t, x); }
      else { assert TagShaped(a.spans, a.regions, a.owner, t); }
    }
    assert t + HEADER in a.live ==> BlockHeld(a.spans, a.live, t, t + HEADER);
  }

  lemma ResizeShaped(spans: map<Addr, Span>, regions: map<Addr, Region>, owner: map<Addr, Addr>, t: Addr, n: nat)
    requires Shaped(spans, regions, owner) && t in spans
    ensures Shaped(spans[t := spans[t].(size := n)], regions, owner)
  {
    var spans' := spans[t := spans[t].(size := n)];
    forall x | x in spans' ensures TagShaped(spans', regions, owner, x) {
      assert TagShaped(spans, regions, owner, x);
    }
    forall x, y ensures TagsApart(spans', x, y) {
      assert TagsApart(spans, x, y);
    }
    forall x | x in regions ensures RegionShaped(spans', regions, owner, x) {
      assert RegionShaped(spans, regions, owner, x);
    }
  }

  lemma ResizeReady(a: State, t: Addr, n: nat)
    requires Ready(a, t) && t != 0
    ensures Ready(a.(spans := a.spans[t := a.spans[t].(size := n)]), t)
  {
    var b := a.(spans := a.spans[t := a.spans[t].(size := n)]);
    ResizeShaped(a.spans, a.regions, a.owner, t, n);
    forall x | x in b.spans ensures TagPlaced(b.spans, b.links, x) {
      assert TagPlaced(a.spans, a.links, x);
    }
    forall j | 0 <= j < MAXEXP ensures Whole(b.spans, b.links, j) == Whole(a.spans, a.links, j) {}
    forall x | x in b.live ensures BlockHeld(b.spans, b.live, t, x) {
      assert BlockHeld(a.spans, a.live, t, x);
    }
  }
}
