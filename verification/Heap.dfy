/** The allocator itself: the C functions as methods that update the tags, the free-list
    heads and the counters in place, each proved to have the effect given in HeapSpec. */
module Heap {
  import opened Arena
  import opened Bytes
  import S = HeapSpec
  import R = HeapRuns

  /** Memory outside headers, as far as its contents are known.  Storing into the header
      at p makes the bytes it occupies unknown. */
  function Scribble(data: map<Addr, byte>, p: Addr): map<Addr, byte>
  {
    map x | x in data && !(p <= x < p + HEADER) :: data[x]
  }

  predicate Under(headers: set<Addr>, x: Addr)
  {
    exists p | p in headers :: p <= x < p + HEADER
  }

  /** Every known byte outside the given headers is as it was. */
  ghost predicate Kept(data: map<Addr, byte>, data': map<Addr, byte>, headers: set<Addr>)
  {
    forall x | x in data && !Under(headers, x) :: x in data' && data'[x] == data[x]
  }

  lemma KeptScribble(data: map<Addr, byte>, p: Addr, headers: set<Addr>)
    requires p in headers
    ensures Kept(data, Scribble(data, p), headers)
  {
    forall x | x in data && !Under(headers, x)
      ensures x in Scribble(data, p)
    {
      assert !(p <= x < p + HEADER);
    }
  }

  lemma KeptSame(data: map<Addr, byte>, headers: set<Addr>)
    ensures Kept(data, data, headers)
  {
  }

  lemma KeptTrans(
    d: map<Addr, byte>, e: map<Addr, byte>, f: map<Addr, byte>, g: set<Addr>, h: set<Addr>, all: set<Addr>)
    requires Kept(d, e, g) && Kept(e, f, h) && g <= all && h <= all
    ensures Kept(d, f, all)
  {
    forall x | x in d && !Under(all, x) ensures x in f && f[x] == d[x] {
      assert !Under(g, x) && !Under(h, x);
    }
  }

  predicate InBlock(live: map<Addr, nat>, x: Addr, y: Addr)
  {
    x in live && x <= y < x + live[x]
  }

  /** The known bytes of every block of `live` are as they were. */
  ghost predicate BlocksKept(live: map<Addr, nat>, data: map<Addr, byte>, data': map<Addr, byte>)
  {
    forall x, y {:trigger InBlock(live, x, y)} | InBlock(live, x, y) && y in data :: y in data' && data'[y] == data[y]
  }

  /** An operation that only wrote headers of the tags before or after it has changed no
      byte of the blocks that were live before and after it. */
  lemma PayloadsKept(a: State, b: State, live: map<Addr, nat>, data: map<Addr, byte>, data': map<Addr, byte>)
    requires Good(a) && Good(b) && Kept(data, data', a.spans.Keys + b.spans.Keys)
    requires forall x | x in live :: x in a.live && x in b.live && a.live[x] == b.live[x] == live[x]
    ensures BlocksKept(live, data, data')
  {
    forall x, y | InBlock(live, x, y) && y in data ensures y in data' && data'[y] == data[y] {
      forall p | p in a.spans.Keys + b.spans.Keys ensures !(p <= y < p + HEADER) {
        if p in a.spans { R.PayloadApart(a, x, x, p); } else { R.PayloadApart(b, x, x, p); }
      }
      assert !Under(a.spans.Keys + b.spans.Keys, y);
    }
  }

  lemma MallocKeeps(a: State, n: nat, run: Addr, data: map<Addr, byte>, data': map<Addr, byte>)
    requires Good(a) && S.Request(n) && S.Answer(a, n, run)
    requires Kept(data, data', a.spans.Keys + S.Malloc(a, n, run).0.spans.Keys)
    ensures Good(S.Malloc(a, n, run).0) && BlocksKept(a.live, data, data')
  {
    PayloadsKept(a, S.Malloc(a, n, run).0, a.live, data, data');
  }

  lemma FreeKeeps(a: State, x: Addr, data: map<Addr, byte>, data': map<Addr, byte>)
    requires Good(a) && x in a.live
    requires Kept(data, data', a.spans.Keys)
    ensures Good(S.Free(a, x).0) && BlocksKept(S.Free(a, x).0.live, data, data')
  {
    PayloadsKept(a, a, S.Free(a, x).0.live, data, data');
  }

  /** `data` with n bytes from src copied to dst; a byte that is not known stays so. */
  ghost predicate Copied(data: map<Addr, byte>, data': map<Addr, byte>, dst: Addr, src: Addr, n: nat)
  {
    && (forall k {:trigger Offset(dst, k)} | 0 <= k < n ::
          && (Offset(dst, k) in data' <==> src + k in data)
          && (src + k in data ==> data'[Offset(dst, k)] == data[src + k]))
    && (forall y | !(dst <= y < dst + n) :: (y in data' <==> y in data) && (y in data ==> data'[y] == data[y]))
  }

  function Offset(p: Addr, k: int): Addr
  {
    p + k
  }

  function CopyByte(data: map<Addr, byte>, dst: Addr, src: Addr): map<Addr, byte>
  {
    if src in data then data[dst := data[src]] else data - {dst}
  }

  lemma CopiedStep(data: map<Addr, byte>, data': map<Addr, byte>, dst: Addr, src: Addr, n: nat)
    requires Copied(data, data', dst, src, n) && (dst + n < src || src + n < dst)
    ensures Copied(data, CopyByte(data', dst + n, src + n), dst, src, n + 1)
  {
    var data'' := CopyByte(data', dst + n, src + n);
    forall k | 0 <= k < n + 1
      ensures Offset(dst, k) in data'' <==> src + k in data
      ensures src + k in data ==> data''[Offset(dst, k)] == data[src + k]
    {
      if k < n { assert Offset(dst, k) == dst + k; }
    }
  }

  /** The first m bytes at ptr in data' are those at p in data, as far as those were known. */
  ghost predicate Moved(data: map<Addr, byte>, data': map<Addr, byte>, p: Addr, ptr: Addr, m: nat)
  {
    forall k {:trigger Offset(ptr, k)} | 0 <= k < m && p + k in data ::
      Offset(ptr, k) in data' && data'[Offset(ptr, k)] == data[p + k]
  }

  /** Copying from a block into a new one. */
  lemma CopyKeeps(live: map<Addr, nat>, p: Addr, ptr: Addr, n: nat, m: nat,
                  d0: map<Addr, byte>, d1: map<Addr, byte>, d2: map<Addr, byte>)
    requires p in live && ptr !in live && m <= live[p] && m <= n
    requires forall x, y {:trigger R.BlocksApart(live[ptr := n], x, y)} :: R.BlocksApart(live[ptr := n], x, y)
    requires BlocksKept(live, d0, d1) && Copied(d1, d2, ptr, p, m)
    ensures BlocksKept(live, d0, d2) && Moved(d0, d2, p, ptr, m)
  {
    forall x, y | InBlock(live, x, y) && y in d0 ensures y in d2 && d2[y] == d0[y] {
      assert R.BlocksApart(live[ptr := n], x, ptr);
    }
    forall k | 0 <= k < m && p + k in d0
      ensures Offset(ptr, k) in d2 && d2[Offset(ptr, k)] == d0[p + k]
    {
      assert InBlock(live, p, p + k);
    }
  }

  /** Freeing the old block. */
  lemma ReallocKeeps(live: map<Addr, nat>, p: Addr, ptr: Addr, n: nat, m: nat,
                     d0: map<Addr, byte>, d2: map<Addr, byte>, d3: map<Addr, byte>)
    requires p in live && ptr !in live && m <= n
    requires BlocksKept(live, d0, d2) && Moved(d0, d2, p, ptr, m) && BlocksKept(live[ptr := n] - {p}, d2, d3)
    ensures BlocksKept(live - {p}, d0, d3) && Moved(d0, d3, p, ptr, m)
  {
    var live' := live[ptr := n] - {p};
    forall x, y | InBlock(live - {p}, x, y) && y in d0 ensures y in d3 && d3[y] == d0[y] {
      assert InBlock(live, x, y) && InBlock(live', x, y);
    }
    forall k | 0 <= k < m && p + k in d0
      ensures Offset(ptr, k) in d3 && d3[Offset(ptr, k)] == d0[p + k]
    {
      assert InBlock(live', ptr, Offset(ptr, k));
    }
  }

  /** What split_tag may rely on. */
  lemma SplitFits(a: State, t: Addr, n: nat)
    requires Ready(a, t) && t != 0 && HEADER + n + HEADER <= a.spans[t].realSize
    ensures t in a.spans && t in a.owner && a.spans[t].realSize < LIMIT && a.links.Keys == a.spans.Keys
    ensures a.spans[t].right != 0 ==> a.spans[t].right in a.spans && a.spans[t].right != t
    ensures var q := t + HEADER + n;
            && q !in a.spans && Linked(a.links[q := Link(-1, 0, 0)], a.heads, a.lists)
            && q in Carve(a.spans, t, n) && Carve(a.spans, t, n)[q].realSize == a.spans[t].realSize - HEADER - n
  {
    assert a.links.Keys == a.spans.Keys;
    SplitLinked(a, t, n);
    assert TagShaped(a.spans, a.regions, a.owner, t) && RegionShaped(a.spans, a.regions, a.owner, a.owner[t]);
    JoinLinked(a.links, a.heads, a.lists, t + HEADER + n);
  }

  /** Split, field by field. */
  lemma SplitIs(a: State, b: State, t: Addr, n: nat)
    requires Ready(a, t) && t != 0 && HEADER + n + HEADER <= a.spans[t].realSize
    requires !FreeAt(a.links, a.spans[t].right)
    requires var q, i := t + HEADER + n, Bucket(a.spans[t].realSize - HEADER - n - HEADER);
             && (a.spans[t].right != 0 ==> a.spans[t].right in a.spans)
             && i < |a.heads| && i < |a.lists| && t in a.owner
             && (a.heads[i] != 0 ==> a.heads[i] in a.links[q := Link(-1, 0, 0)])
             && b == a.(spans := Carve(a.spans, t, n), owner := a.owner[q := a.owner[t]],
                        links := Push(a.links[q := Link(-1, 0, 0)], a.heads, q, i),
                        heads := a.heads[i := q], lists := a.lists[i := [q] + a.lists[i]])
    ensures b == Split(a, t, n) && b.links.Keys == b.spans.Keys
  {
    assert a.links.Keys == a.spans.Keys;
    hide Ready, Carve, Push;
  }

  lemma AdoptedSpan(a: State, b: Addr, n: nat)
    ensures var c := Adopt(a, b, Region(n, 0), 0);
            && b in c.spans && c.spans[b] == Span(MAGIC, 0, n, 0, 0)
            && c.extra == a.extra && c.spans.Keys == a.spans.Keys + {b}
  {
  }

  /** add_region, by its parts. */
  lemma AddRegionIs(a: State, b: Addr, n: nat)
    requires Good(a) && HEADER < n < LIMIT && Fresh(a.regions, b, n)
    ensures var c, i := Adopt(a, b, Region(n, 0), 0), Bucket(n - HEADER);
            && i < MAXEXP == |a.extra| && b != 0 && Ready(c, b)
            && FileTag(c, b, i).spans == c.spans
            && S.AddRegion(a, b, n) == FileTag(c, b, i).(extra := a.extra[i := a.extra[i] + 1])
  {
    BucketBounds(n - HEADER);
    AdoptReady(a, b, Region(n, 0), 0);
    hide Ready;
  }

  method GetExp(size: nat) returns (e: int)
    requires size < 0x1_0000_0000
    ensures e == if size < 256 then -1 else Log2(size)
  {
    if size < Pow2(MINEXP) {
      return -1;
    }
    var shift := MINEXP;
    while shift < MAXEXP && Pow2(shift) <= size
      invariant MINEXP <= shift <= MAXEXP
      invariant Pow2(shift - 1) <= size
      decreases MAXEXP - shift
    {
      shift := shift + 1;
    }
    if shift == MAXEXP {
      assert Pow2(10) == 1024 && Pow2(20) == 1048576 && Pow2(30) == 1073741824;
    }
    Log2Unique(size, shift - 1);
    e := shift - 1;
  }

  class Heap {
    var spans: map<Addr, Span>
    var links: map<Addr, Link>
    const freePages: array<Addr>
    const completePages: array<int>
    var initialized: bool
    var data: map<Addr, byte>

    ghost var regions: map<Addr, Region>
    ghost var owner: map<Addr, Addr>
    ghost var lists: seq<seq<Addr>>
    ghost var live: map<Addr, nat>
    ghost var extra: seq<nat>

    ghost function View(): (a: State)
      reads this, freePages, completePages
    {
      State(spans, links, freePages[..], completePages[..], regions, owner, lists, live, extra)
    }

    ghost predicate Valid()
      reads this, freePages, completePages
    {
      freePages != completePages && Good(View()) && (initialized || View() == R.Initial())
    }

    /** The invariant while tag is being worked on. */
    ghost predicate Pending(tag: Addr)
      reads this, freePages, completePages
    {
      tag != 0 && freePages != completePages && Ready(View(), tag)
    }

    constructor ()
      ensures Valid() && View() == R.Initial()
      ensures fresh(freePages) && fresh(completePages)
    {
      spans, links, initialized, data := map[], map[], false, map[];
      freePages := new Addr[MAXEXP](i => 0);
      completePages := new int[MAXEXP](i => 0);
      regions, owner, live := map[], map[], map[];
      lists, extra := seq(MAXEXP, i => []), seq(MAXEXP, i => 0);
      new;
      assert View() == R.Initial();
      R.InitialGood();
    }

    /** Stores into the two halves of the header at p. */
    method StoreSpan(p: Addr, s: Span)
      modifies this`spans, this`data
      ensures spans == old(spans)[p := s] && data == Scribble(old(data), p)
    {
      spans, data := spans[p := s], Scribble(data, p);
    }

    method StoreLink(p: Addr, l: Link)
      modifies this`links, this`data
      ensures links == old(links)[p := l] && data == Scribble(old(data), p)
    {
      links, data := links[p := l], Scribble(data, p);
    }

    method InsertTag(p: Addr, index: int)
      requires Linked(links, freePages[..], lists) && p in links && links[p].index < 0
      requires index < MAXEXP && p in spans && HEADER <= spans[p].realSize < LIMIT
      modifies this`links, this`lists, this`data, freePages
      ensures var i := if index < 0 then Bucket(spans[p].realSize - HEADER) else index;
        && i < MAXEXP && (old(freePages[i]) != 0 ==> old(freePages[i]) in old(links))
        && links == Push(old(links), old(freePages[..]), p, i)
        && freePages[..] == old(freePages[..])[i := p]
        && lists == old(lists)[i := [p] + old(lists)[i]]
      ensures Kept(old(data), data, links.Keys)
    {
      var realIndex := index;
      if index < 0 {
        realIndex := GetExp(spans[p].realSize - HEADER);
        if realIndex < MINEXP {
          realIndex := MINEXP;
        }
        BucketBounds(spans[p].realSize - HEADER);
      }
      HeadLinked(links, freePages[..], lists, realIndex);
      ghost var d0, keys := data, links.Keys;
      StoreLink(p, links[p].(index := realIndex));
      KeptScribble(d0, p, keys);
      if freePages[realIndex] != 0 {
        var h := freePages[realIndex];
        ghost var d1 := data;
        StoreLink(h, links[h].(prev := p));
        KeptScribble(d1, h, keys);
        KeptTrans(d0, d1, data, keys, keys, keys);
        ghost var d2 := data;
        StoreLink(p, links[p].(next := h));
        KeptScribble(d2, p, keys);
        KeptTrans(d0, d2, data, keys, keys, keys);
      }
      freePages[realIndex] := p;
      lists := lists[realIndex := [p] + lists[realIndex]];
    }

    method RemoveTag(p: Addr)
      requires Linked(links, freePages[..], lists) && p in links && links[p].index >= 0
      modifies this`links, this`lists, this`data, freePages
      ensures var i := old(links)[p].index;
        && i < MAXEXP
        && (old(links)[p].prev != 0 ==> old(links)[p].prev in old(links))
        && (old(links)[p].next != 0 ==> old(links)[p].next in old(links))
        && links == Pull(old(links), p)
        && freePages[..] == PullHeads(old(links), old(freePages[..]), p)
        && lists == old(lists)[i := Without(old(lists)[i], p)]
      ensures Kept(old(data), data, links.Keys)
    {
      ghost var k := EntryAround(links, freePages[..], lists, p);
      ghost var d0, keys := data, links.Keys;
      var Link(i, next, prev) := links[p];
      if freePages[i] == p {
        freePages[i] := next;
      }
      if prev != 0 {
        StoreLink(prev, links[prev].(next := next));
        KeptScribble(d0, prev, keys);
      }
      ghost var d1 := data;
      if next != 0 {
        StoreLink(next, links[next].(prev := prev));
        KeptScribble(d1, next, keys);
        KeptTrans(d0, d1, data, keys, keys, keys);
      }
      ghost var d2 := data;
      StoreLink(p, Link(-1, 0, 0));
      KeptScribble(d2, p, keys);
      KeptTrans(d0, d2, data, keys, keys, keys);
      lists := lists[i := Without(lists[i], p)];
    }
  
    /** Returns the left neighbour, grown by tag; tag's header is no longer one. */
    method MeltLeft(tag: Addr) returns (left: Addr)
      requires Shaped(spans, regions, owner) && tag in spans && spans[tag].left != 0
      modifies this`spans, this`links, this`owner, this`data
      ensures left == old(spans)[tag].left && left in old(spans) && old(spans)[left].right == tag && left < tag
      ensures var r := old(spans)[tag].right; r != 0 ==> r in old(spans) && r != tag
      ensures spans == Absorb(old(spans), left)
      ensures links == old(links) - {tag} && owner == old(owner) - {tag}
      ensures Kept(old(data), data, old(spans).Keys)
    {
      assert TagShaped(spans, regions, owner, tag);
      left := spans[tag].left;
      AbsorbShaped(spans, regions, owner, left);
      ghost var d0, keys := data, spans.Keys;
      StoreSpan(left, spans[left].(realSize := spans[left].realSize + spans[tag].realSize, right := spans[tag].right));
      KeptScribble(d0, left, keys);
      if spans[tag].right != 0 {
        var r := spans[tag].right;
        ghost var d1 := data;
        StoreSpan(r, spans[r].(left := left));
        KeptScribble(d1, r, keys);
        KeptTrans(d0, d1, data, keys, keys, keys);
      }
      spans, links, owner := spans - {tag}, links - {tag}, owner - {tag};
    }

    method AbsorbRight(tag: Addr)
      requires Shaped(spans, regions, owner) && Linked(links, freePages[..], lists)
      requires links.Keys == spans.Keys && tag in spans && FreeAt(links, spans[tag].right)
      modifies this`spans, this`links, this`owner, this`lists, this`data, freePages
      ensures var right := old(spans)[tag].right;
        && right in old(spans) && right != tag && old(links)[right].index < MAXEXP
        && (old(spans)[right].right != 0 ==> old(spans)[right].right in old(spans) && old(spans)[right].right != right)
        && (old(links)[right].prev != 0 ==> old(links)[right].prev in old(links))
        && (old(links)[right].next != 0 ==> old(links)[right].next in old(links))
        && spans == Absorb(old(spans), tag) && owner == old(owner) - {right}
        && links == Pull(old(links), right) - {right}
        && freePages[..] == PullHeads(old(links), old(freePages[..]), right)
        && lists == old(lists)[old(links)[right].index := Without(old(lists)[old(links)[right].index], right)]
      ensures Kept(old(data), data, old(spans).Keys)
    {
      var right := spans[tag].right;
      AbsorbShaped(spans, regions, owner, tag);
      hide Kept, Shaped, Linked, Absorb, Pull, PullHeads, Without;
      ghost var d0, keys := data, spans.Keys;
      RemoveTag(right);
      ghost var d1 := data;
      TakeOver(tag, right);
      KeptTrans(d0, d1, data, keys, keys, keys);
    }

    /** The part of absorb_right behind its remove_tag. */
    method TakeOver(tag: Addr, right: Addr)
      requires tag in spans && right == spans[tag].right && right in spans && right != tag
      requires spans[right].right != 0 ==> spans[right].right in spans && spans[right].right != right
      modifies this`spans, this`links, this`owner, this`data
      ensures spans == Absorb(old(spans), tag) && links == old(links) - {right} && owner == old(owner) - {right}
      ensures Kept(old(data), data, old(spans).Keys)
    {
      hide Kept;
      ghost var d0, keys := data, spans.Keys;
      StoreSpan(tag, spans[tag].(realSize := spans[tag].realSize + spans[right].realSize, right := spans[right].right));
      KeptScribble(d0, tag, keys);
      if spans[right].right != 0 {
        var r := spans[right].right;
        ghost var d2 := data;
        StoreSpan(r, spans[r].(left := tag));
        KeptScribble(d2, r, keys);
        KeptTrans(d0, d2, data, keys, keys, keys);
      }
      spans, links, owner := spans - {right}, links - {right}, owner - {right};
    }

    /** The part of split_tag before its insert_tag. */
    method CarveTag(tag: Addr) returns (q: Addr)
      requires tag in spans && tag in owner && spans[tag].realSize >= HEADER + spans[tag].size
      requires spans[tag].right != 0 ==> spans[tag].right in spans && spans[tag].right != tag
      requires tag + HEADER + spans[tag].size !in spans
      modifies this`spans, this`links, this`owner, this`data
      ensures q == tag + HEADER + old(spans)[tag].size
      ensures spans == Carve(old(spans), tag, old(spans)[tag].size)
      ensures links == old(links)[q := Link(-1, 0, 0)] && owner == old(owner)[q := old(owner)[tag]]
      ensures Kept(old(data), data, spans.Keys)
    {
      var rest := spans[tag].realSize - HEADER - spans[tag].size;
      q := tag + HEADER + spans[tag].size;
      ghost var d0, keys := data, spans.Keys + {q};
      StoreSpan(q, Span(MAGIC, 0, rest, tag, spans[tag].right));
      KeptScribble(d0, q, keys);
      ghost var d1 := data;
      StoreLink(q, Link(-1, 0, 0));
      KeptScribble(d1, q, keys);
      KeptTrans(d0, d1, data, keys, keys, keys);
      if spans[q].right != 0 {
        var r := spans[q].right;
        ghost var d2 := data;
        StoreSpan(r, spans[r].(left := q));
        KeptScribble(d2, r, keys);
        KeptTrans(d0, d2, data, keys, keys, keys);
      }
      ghost var d3 := data;
      StoreSpan(tag, spans[tag].(right := q, realSize := spans[tag].realSize - rest));
      KeptScribble(d3, tag, keys);
      KeptTrans(d0, d3, data, keys, keys, keys);
      owner := owner[q := owner[tag]];
    }

    method SplitTag(tag: Addr)
      requires Pending(tag) && !FreeAt(links, spans[tag].right)
      requires spans[tag].realSize >= HEADER + spans[tag].size + HEADER
      modifies this`spans, this`links, this`owner, this`lists, this`data, freePages
      ensures View() == Split(old(View()), tag, old(spans)[tag].size)
      ensures Kept(old(data), data, spans.Keys)
    {
      ghost var a := View();
      var size := spans[tag].size;
      hide Kept, Split, Ready, Carve, Push, RestClass;
      SplitFits(a, tag, size);
      ghost var d0 := data;
      var q := CarveTag(tag);
      ghost var d1 := data;
      InsertTag(q, -1);
      SplitIs(a, View(), tag, size);
      KeptTrans(d0, d1, data, spans.Keys, links.Keys, spans.Keys);
    }

    method Initialize()
      requires Valid()
      modifies this`initialized, freePages, completePages
      ensures Valid() && initialized && View() == old(View())
    {
      if !initialized {
        for index := 0 to MAXEXP
          invariant freePages[..] == old(freePages[..]) && completePages[..] == old(completePages[..])
        {
          freePages[index] := 0;
          completePages[index] := 0;
        }
        initialized := true;
      }
    }

    /** Writes the header of a tag that fills a new region. */
    method PlaceTag(tag: Addr, ghost pages: nat, size: nat, bytes: nat)
      modifies this`spans, this`links, this`regions, this`owner, this`data
      ensures View() == Adopt(old(View()), tag, Region(bytes, pages), size)
      ensures Kept(old(data), data, {tag})
    {
      ghost var d0 := data;
      StoreSpan(tag, Span(MAGIC, size, bytes, 0, 0));
      ghost var d1 := data;
      StoreLink(tag, Link(-1, 0, 0));
      KeptScribble(d0, tag, {tag});
      KeptScribble(d1, tag, {tag});
      KeptTrans(d0, d1, data, {tag}, {tag}, {tag});
      regions, owner := regions[tag := Region(bytes, pages)], owner[tag := tag];
    }

    /** Pages for a request; `run` is liballoc_alloc's answer. */
    method AllocateNewTag(size: nat, run: Addr) returns (tag: Addr)
      modifies this`spans, this`links, this`regions, this`owner, this`data
      ensures tag == run
      ensures run == 0 ==> unchanged(this)
      ensures run != 0 ==>
                View() == Adopt(old(View()), run, Region(S.PagesFor(size) * PAGESIZE, S.PagesFor(size)), size)
      ensures run != 0 ==> Kept(old(data), data, {run})
    {
      var usage := size + HEADER;
      var pages := usage / PAGESIZE;
      if usage % PAGESIZE != 0 {
        pages := pages + 1;
      }
      if pages < PAGECOUNT {
        pages := PAGECOUNT;
      }
      tag := run;
      if tag != 0 {
        PlaceTag(tag, pages, size, pages * PAGESIZE);
      }
    }

    /** The search loops of malloc: list by list from the request's bucket upwards. */
    method FindTag(n: nat) returns (tag: Addr, index: int)
      requires Valid() && S.Request(n)
      ensures tag == S.Found(View(), n)
      ensures tag != 0 ==> FreeAt(links, tag) && index == links[tag].index
    {
      S.ListsInSpans(View());
      index := GetExp(n);
      if index < MINEXP {
        index := MINEXP;
      }
      BucketBounds(n);
      tag := 0;
      var candidate := index;
      while candidate < MAXEXP && tag == 0
        invariant Bucket(n) <= candidate <= MAXEXP
        invariant tag == 0 ==> S.Found(View(), n) == S.Search(spans, lists, candidate, n)
        invariant tag != 0 ==> tag == S.Found(View(), n) && FreeAt(links, tag) && index == links[tag].index
        decreases MAXEXP - candidate
      {
        tag := freePages[candidate];
        ghost var l := lists[candidate];
        ghost var k := 0;
        assert l[0..] == l;
        while tag != 0 && !(spans[tag].realSize - HEADER >= n + HEADER)
          invariant 0 <= k <= |l| && tag == At(l, k)
          invariant S.FirstFit(spans, l, n) == S.FirstFit(spans, l[k..], n)
          decreases |l| - k
        {
          assert EntryLinked(links, lists, candidate, k);
          assert l[k..][1..] == l[k + 1..];
          tag := links[tag].next;
          k := k + 1;
        }
        if tag != 0 {
          index := candidate;
        }
        candidate := candidate + 1;
      }
    }
  
    /** Takes a free tag off its list and notes the request in it. */
    method TakeTag(tag: Addr, index: int, n: nat)
      requires Valid() && FreeAt(links, tag) && index == links[tag].index
      modifies this`spans, this`links, this`lists, this`data, freePages, completePages
      ensures var b := Take(old(View()), tag);
        tag in b.spans && View() == b.(spans := b.spans[tag := b.spans[tag].(size := n)])
      ensures Kept(old(data), data, old(spans).Keys)
    {
      ghost var a, d0 := View(), data;
      RemoveTag(tag);
      assert Kept(d0, data, a.spans.Keys);
      if spans[tag].left == 0 && spans[tag].right == 0 {
        completePages[index] := completePages[index] - 1;
      }
      assert View() == Take(a, tag);
      ghost var d1 := data;
      StoreSpan(tag, spans[tag].(size := n));
      KeptScribble(d1, tag, a.spans.Keys);
      KeptTrans(d0, d1, data, a.spans.Keys, a.spans.Keys, a.spans.Keys);
    }

    /** The tag for a request: a free one, taken off its list, or a new run of pages. */
    method ObtainTag(n: nat, run: Addr) returns (tag: Addr)
      requires Valid() && S.Request(n) && S.Answer(View(), n, run)
      modifies this`spans, this`links, this`regions, this`owner, this`lists, this`data, freePages, completePages
      ensures tag == 0 <==> S.Found(old(View()), n) == 0 && run == 0
      ensures tag == 0 ==> View() == old(View())
      ensures tag != 0 ==> (View(), tag) == S.Obtain(old(View()), n, run)
      ensures Kept(old(data), data, old(spans).Keys + spans.Keys)
    {
      ghost var a, d0 := View(), data;
      S.FoundMeaning(a, n);
      var index: int;
      tag, index := FindTag(n);
      if tag == 0 {
        tag := AllocateNewTag(n, run);
        if tag == 0 {
          return;
        }
        KeptTrans(d0, d0, data, {}, {run}, a.spans.Keys + spans.Keys);
      } else {
        TakeTag(tag, index, n);
        KeptTrans(d0, d0, data, {}, a.spans.Keys, a.spans.Keys + spans.Keys);
      }
    }

    /** Cuts a tag to the size noted in it, if enough is left over. */
    method CutTag(tag: Addr)
      requires Pending(tag)
      requires spans[tag].realSize >= HEADER + spans[tag].size && !FreeAt(links, spans[tag].right)
      modifies this`spans, this`links, this`owner, this`lists, this`data, freePages
      ensures View() == S.Cut(old(View()), tag, old(spans)[tag].size)
      ensures Kept(old(data), data, spans.Keys)
    {
      var n := spans[tag].size;
      assert TagShaped(spans, regions, owner, tag);
      assert RegionShaped(spans, regions, owner, owner[tag]);
      if spans[tag].realSize - n - 2 * HEADER > 0 {
        var childIndex := GetExp(spans[tag].realSize - n - 2 * HEADER);
        if childIndex >= 0 {
          SplitTag(tag);
        }
      }
    }

    /** liballoc_malloc_impl up to the point where the tag is handed out. */
    method Prepare(n: nat, run: Addr) returns (tag: Addr)
      requires Valid() && initialized && S.Request(n) && S.Answer(View(), n, run)
      modifies this`spans, this`links, this`regions, this`owner, this`lists, this`data, freePages, completePages
      ensures (View(), tag) == S.Prepared(old(View()), n, run)
      ensures Kept(old(data), data, old(spans).Keys + spans.Keys)
    {
      ghost var a, d0 := View(), data;
      tag := ObtainTag(n, run);
      if tag != 0 {
        ghost var b, d1 := View(), data;
        assert (b, tag) == S.Obtain(a, n, run);
        CutTag(tag);
        KeptTrans(d0, d1, data, a.spans.Keys + b.spans.Keys, spans.Keys, a.spans.Keys + spans.Keys);
      }
    }

    /** liballoc_malloc_impl; `run` is liballoc_alloc's answer, should it be asked. */
    method Malloc(n: nat, run: Addr) returns (ptr: Addr)
      requires Valid() && S.Request(n) && S.Answer(View(), n, run)
      modifies this, freePages, completePages
      ensures Valid() && (View(), ptr) == S.Malloc(old(View()), n, run)
      ensures BlocksKept(old(live), old(data), data)
    {
      hide S.Prepared, S.NoneFits, S.Found, Shaped, Linked, Placed, Counted, Held, Kept, BlocksKept;
      Initialize();
      var tag := Prepare(n, run);
      if tag == 0 {
        ptr := 0;
      } else {
        ptr := tag + HEADER;
        live := live[ptr := n];
      }
      assert (View(), ptr) == S.Malloc(old(View()), n, run);
      MallocKeeps(old(View()), n, run, old(data), data);
    }
  
    /** The "melt left" loop of liballoc_free_impl.  Because no two neighbours are both
        free, it runs at most once. */
    method MeltAllLeft(start: Addr) returns (tag: Addr)
      requires Pending(start)
      modifies this`spans, this`links, this`owner, this`lists, this`data, freePages
      ensures Pending(tag) && !FreeAt(links, spans[tag].left)
      ensures old(FreeAt(links, spans[start].left)) ==>
        View() == Arena.MeltLeft(old(View()), start) && tag == old(spans)[start].left
      ensures !old(FreeAt(links, spans[start].left)) ==> View() == old(View()) && tag == start
      ensures Kept(old(data), data, old(spans).Keys) && spans.Keys <= old(spans).Keys
    {
      tag := start;
      ghost var done := false;
      while spans[tag].left != 0 && FreeAt(links, spans[tag].left)
        invariant Pending(tag)
        invariant !done ==> tag == start && View() == old(View())
        invariant done ==>
          && old(FreeAt(links, spans[start].left)) && tag == old(spans)[start].left
          && View() == Arena.MeltLeft(old(View()), start) && !FreeAt(links, spans[tag].left)
        invariant Kept(old(data), data, old(spans).Keys) && spans.Keys <= old(spans).Keys
        decreases !done
      {
        MeltLeftReady(View(), tag);
        ghost var d1 := data;
        var left := MeltLeft(tag);
        ghost var d2 := data;
        KeptTrans(old(data), d1, d2, old(spans).Keys, old(spans).Keys, old(spans).Keys);
        DropLinked(old(links), freePages[..], lists, tag);
        RemoveTag(left);
        KeptTrans(old(data), d2, data, old(spans).Keys, links.Keys, old(spans).Keys);
        tag := left;
        done := true;
      }
    }

    /** The "melt right" loop, which likewise runs at most once. */
    method MeltAllRight(tag: Addr)
      requires Pending(tag)
      modifies this`spans, this`links, this`owner, this`lists, this`data, freePages
      ensures Pending(tag)
      ensures View() == if old(FreeAt(links, spans[tag].right)) then MeltRight(old(View()), tag) else old(View())
      ensures Kept(old(data), data, old(spans).Keys) && spans.Keys <= old(spans).Keys
    {
      ghost var done := false;
      while spans[tag].right != 0 && FreeAt(links, spans[tag].right)
        invariant Pending(tag)
        invariant !done ==> View() == old(View())
        invariant done ==>
          && old(FreeAt(links, spans[tag].right)) && View() == MeltRight(old(View()), tag)
          && !FreeAt(links, spans[tag].right)
        invariant Kept(old(data), data, old(spans).Keys)
        decreases !done
      {
        MeltRightReady(View(), tag);
        ghost var d1 := data;
        AbsorbRight(tag);
        KeptTrans(old(data), d1, data, old(spans).Keys, old(spans).Keys, old(spans).Keys);
        done := true;
      }
    }
  
    /** liballoc_free: the whole region goes back to the page allocator. */
    method ReturnRegion(tag: Addr) returns (pages: nat)
      requires tag in spans
      modifies this`spans, this`links, this`regions, this`owner
      ensures View() == Withdraw(old(View()), tag) && pages == S.PagesOf(old(spans)[tag].realSize)
    {
      pages := spans[tag].realSize / PAGESIZE;
      if spans[tag].realSize % PAGESIZE != 0 {
        pages := pages + 1;
      }
      if pages < PAGECOUNT {
        pages := PAGECOUNT;
      }
      spans, links, regions, owner := spans - {tag}, links - {tag}, regions - {tag}, owner - {tag};
    }

    /** insert_tag for a tag between two non-free neighbours. */
    method FilePending(tag: Addr, index: int)
      requires Pending(tag) && index < MAXEXP && HEADER <= spans[tag].realSize < LIMIT
      modifies this`links, this`lists, this`data, freePages
      ensures var i := if index < 0 then Bucket(spans[tag].realSize - HEADER) else index;
        i < MAXEXP && View() == FileTag(old(View()), tag, i)
      ensures Kept(old(data), data, spans.Keys)
    {
      InsertTag(tag, index);
    }

    /** Files a tag in list `index`, after counting it if it is a whole region. */
    method FileCounted(tag: Addr, index: nat)
      requires Pending(tag) && index < MAXEXP && HEADER <= spans[tag].realSize < LIMIT
      modifies this`links, this`lists, this`data, freePages, completePages
      ensures var a := old(View());
        View() == if a.spans[tag].left == 0 && a.spans[tag].right == 0
                  then FileTag(a, tag, index).(complete := a.complete[index := a.complete[index] + 1])
                  else FileTag(a, tag, index)
      ensures Kept(old(data), data, spans.Keys)
    {
      FilePending(tag, index);
      if spans[tag].left == 0 && spans[tag].right == 0 {
        completePages[index] := completePages[index] + 1;
      }
    }

    /** The end of liballoc_free_impl: list or page allocator. */
    method Dispose(tag: Addr) returns (base: Addr, pages: nat)
      requires Pending(tag) && !FreeAt(links, spans[tag].left) && !FreeAt(links, spans[tag].right)
      modifies this`spans, this`links, this`regions, this`owner, this`lists, this`data, freePages, completePages
      ensures (View(), base, pages) == S.Disposed(old(View()), tag)
      ensures Kept(old(data), data, old(spans).Keys)
    {
      hide Kept, Linked, Held, TagPlaced, S.Disposed;
      base, pages := 0, 0;
      assert TagShaped(spans, regions, owner, tag);
      assert RegionShaped(spans, regions, owner, owner[tag]);
      hide Shaped;
      BucketBounds(spans[tag].realSize - HEADER);
      var index := GetExp(spans[tag].realSize - HEADER);
      if index < MINEXP {
        index := MINEXP;
      }
      S.DisposedCases(View(), tag, index);
      if spans[tag].left == 0 && spans[tag].right == 0 && completePages[index] == MAXCOMPLETE {
        base := tag;
        KeptSame(data, spans.Keys);
        pages := ReturnRegion(tag);
      } else {
        FileCounted(tag, index);
      }
    }

    /** Both melt loops. */
    method Coalesce(ptr: Addr) returns (tag: Addr)
      requires Valid() && ptr in live
      modifies this`spans, this`links, this`owner, this`lists, this`live, this`data, freePages
      ensures Pending(tag) && (View(), tag) == S.Coalesced(old(View()), ptr)
      ensures Kept(old(data), data, old(spans).Keys) && spans.Keys <= old(spans).Keys
    {
      S.ReclaimReady(View(), ptr);
      live := live - {ptr};
      tag := MeltAllLeft(ptr - HEADER);
      ghost var d1 := data;
      MeltAllRight(tag);
      KeptTrans(old(data), d1, data, old(spans).Keys, old(spans).Keys, old(spans).Keys);
    }

    /** liballoc_free_impl.  The results are the liballoc_free call, if one is made. */
    method Free(ptr: Addr) returns (base: Addr, pages: nat)
      requires Valid() && (ptr == 0 || ptr in live)
      modifies this, freePages, completePages
      ensures Valid() && BlocksKept(live, old(data), data)
      ensures ptr == 0 ==> View() == old(View()) && base == 0
      ensures ptr != 0 ==> (View(), base, pages) == S.Free(old(View()), ptr)
    {
      if ptr == 0 {
        return 0, 0;
      }
      var tag := Coalesce(ptr);
      ghost var d1 := data;
      base, pages := Dispose(tag);
      KeptTrans(old(data), d1, data, old(spans).Keys, old(spans).Keys, old(spans).Keys);
      assert (View(), base, pages) == S.Free(old(View()), ptr);
      FreeKeeps(old(View()), ptr, old(data), data);
    }
  
    /** liballoc_memcpy into a live payload: four bytes at a time, then one at a time. */
    method CopyBytes(dst: Addr, src: Addr, n: nat)
      requires dst in live && n <= live[dst] && (dst + n <= src || src + n <= dst)
      modifies this`data
      ensures Copied(old(data), data, dst, src, n)
    {
      var left, done := n, 0;
      while left >= 4
        invariant left + done == n && Copied(old(data), data, dst, src, done)
      {
        for k := 0 to 4
          invariant Copied(old(data), data, dst, src, done + k)
        {
          CopiedStep(old(data), data, dst, src, done + k);
          data := CopyByte(data, dst + done + k, src + done + k);
        }
        left, done := left - 4, done + 4;
      }
      while left > 0
        invariant left + done == n && Copied(old(data), data, dst, src, done)
      {
        CopiedStep(old(data), data, dst, src, done);
        data := CopyByte(data, dst + done, src + done);
        left, done := left - 1, done + 1;
      }
    }

    /** The allocating and copying part of liballoc_realloc_impl. */
    method MallocAndCopy(p: Addr, n: nat, run: Addr) returns (ptr: Addr)
      requires Valid() && p in live && S.Request(n) && S.Answer(View(), n, run)
      requires S.Malloc(View(), n, run).1 != 0
      modifies this, freePages, completePages
      ensures Valid() && (View(), ptr) == S.Malloc(old(View()), n, run)
      ensures BlocksKept(old(live), old(data), data)
      ensures Moved(old(data), data, p, ptr, if old(live)[p] > n then n else old(live)[p])
    {
      hide S.Malloc, S.NoneFits, S.Found, Shaped, Linked, Placed, Counted, Kept, BlocksKept, Moved;
      assert BlockHeld(spans, live, 0, p);
      var realSize := spans[p - HEADER].size;
      if realSize > n {
        realSize := n;
      }
      ptr := Malloc(n, run);
      ghost var b, d1 := View(), data;
      assert b.live == old(live)[ptr := n];
      R.LiveApart(b);
      assert R.BlocksApart(b.live, p, ptr);
      CopyBytes(ptr, p, realSize);
      assert View() == b;
      CopyKeeps(old(live), p, ptr, n, realSize, old(data), d1, data);
    }

    /** liballoc_realloc_impl of a live block to a positive size, when memory can be had. */
    method ReallocBlock(p: Addr, n: nat, run: Addr) returns (ptr: Addr, base: Addr, pages: nat)
      requires Valid() && p in live && n > 0 && S.Request(n) && S.Answer(View(), n, run)
      requires S.Malloc(View(), n, run).1 != 0
      modifies this, freePages, completePages
      ensures Valid() && (View(), ptr, base, pages) == S.Realloc(old(View()), p, n, run)
      ensures BlocksKept(old(live) - {p}, old(data), data)
      ensures Moved(old(data), data, p, ptr, if old(live)[p] > n then n else old(live)[p])
    {
      S.ReclaimReady(View(), p);
      ptr := MallocAndCopy(p, n, run);
      ghost var l1, d2 := live, data;
      assert l1 == old(live)[ptr := n];
      base, pages := Free(p);
      assert live == l1 - {p};
      ReallocKeeps(old(live), p, ptr, n, if old(live)[p] > n then n else old(live)[p], old(data), d2, data);
    }

    /** liballoc_realloc_impl. */
    method Realloc(p: Addr, n: nat, run: Addr) returns (ptr: Addr, base: Addr, pages: nat)
      requires Valid() && (p == 0 || p in live) && S.Request(n) && S.Answer(View(), n, run)
      requires p != 0 && n != 0 ==> S.Malloc(View(), n, run).1 != 0
      modifies this, freePages, completePages
      ensures Valid() && BlocksKept(old(live) - {p}, old(data), data)
      ensures n == 0 ==> ptr == 0
      ensures n == 0 && p == 0 ==> View() == old(View()) && base == 0
      ensures n == 0 && p != 0 ==> (View(), base, pages) == S.Free(old(View()), p)
      ensures n != 0 && p == 0 ==> (View(), ptr) == S.Malloc(old(View()), n, run) && base == 0
      ensures n != 0 && p != 0 ==>
        && (View(), ptr, base, pages) == S.Realloc(old(View()), p, n, run)
        && Moved(old(data), data, p, ptr, if old(live)[p] > n then n else old(live)[p])
    {
      ptr, base, pages := 0, 0, 0;
      if n == 0 {
        base, pages := Free(p);
        BlocksFewer(old(live), live, p, old(data), data);
      } else if p == 0 {
        ptr := Malloc(n, run);
        BlocksFewer(old(live), old(live), p, old(data), data);
      } else {
        ptr, base, pages := ReallocBlock(p, n, run);
      }
    }

    /** Puts a tag at the start of a region and files it; it is not counted. */
    method PlaceFree(base: Addr, size: nat)
      requires Valid() && HEADER < size < LIMIT && Fresh(regions, base, size)
      modifies this`spans, this`links, this`regions, this`owner, this`lists, this`extra, this`data, freePages
      ensures View() == S.AddRegion(old(View()), base, size)
      ensures Kept(old(data), data, spans.Keys)
    {
      hide Kept, Ready, Good, Adopt, FileTag, S.AddRegion, Bucket, Fresh;
      AddRegionIs(View(), base, size);
      var i := Bucket(size - HEADER);
      FileNew(base, size);
      extra := extra[i := extra[i] + 1];
    }

    method FileNew(base: Addr, size: nat)
      requires freePages != completePages && base != 0 && HEADER < size < LIMIT && Bucket(size - HEADER) < MAXEXP
      requires Ready(Adopt(View(), base, Region(size, 0), 0), base)
      modifies this`spans, this`links, this`regions, this`owner, this`lists, this`data, freePages
      ensures View() == FileTag(Adopt(old(View()), base, Region(size, 0), 0), base, Bucket(size - HEADER))
      ensures Kept(old(data), data, spans.Keys)
    {
      AdoptedSpan(View(), base, size);
      hide Kept, Ready, Adopt, FileTag, Bucket;
      PlaceTag(base, 0, 0, size);
      ghost var d1 := data;
      FilePending(base, -1);
      KeptTrans(old(data), d1, data, {base}, spans.Keys, spans.Keys);
    }

    /** liballoc_add_region: -1 for a missing or too small region, else 0. */
    method AddRegion(base: Addr, size: nat) returns (status: int)
      requires Valid()
      requires base != 0 && size > HEADER ==> size < LIMIT && Fresh(regions, base, size)
      modifies this, freePages, completePages
      ensures Valid() && BlocksKept(live, old(data), data)
      ensures status == 0 <==> base != 0 && size > HEADER
      ensures if status == 0 then View() == S.AddRegion(old(View()), base, size)
              else status == -1 && View() == old(View())
    {
      if base == 0 || size <= HEADER {
        return -1;
      }
      Initialize();
      PlaceFree(base, size);
      AddKeeps(old(View()), base, size, old(data), data);
      status := 0;
    }
  }

  lemma BlocksFewer(live: map<Addr, nat>, live': map<Addr, nat>, p: Addr, d: map<Addr, byte>, d': map<Addr, byte>)
    requires BlocksKept(live', d, d') && (live' == live || live' == live - {p})
    ensures BlocksKept(live - {p}, d, d')
  {
    forall x, y | InBlock(live - {p}, x, y) && y in d ensures y in d' && d'[y] == d[y] {
      assert InBlock(live', x, y);
    }
  }

  lemma AddKeeps(a: State, b: Addr, n: nat, data: map<Addr, byte>, data': map<Addr, byte>)
    requires Good(a) && HEADER < n < LIMIT && Fresh(a.regions, b, n)
    requires Kept(data, data', S.AddRegion(a, b, n).spans.Keys)
    ensures Good(S.AddRegion(a, b, n)) && BlocksKept(a.live, data, data')
  {
    PayloadsKept(S.AddRegion(a, b, n), S.AddRegion(a, b, n), a.live, data, data');
  }
}
