/**
 A buffer pool: descriptors and their data carved from two heaps, and a free
 list threaded through the descriptors.
 */
module BufferPool {
  import opened Bits
  import opened Buffers
  import opened CompletionQueue
  import opened Heap

  // ---------- lists threaded through links ----------

  /** Following the links from `first` visits exactly `list`. */
  ghost predicate Linked(next: map<Buf, Buf>, first: Buf, list: seq<Buf>)
    decreases |list|
  {
    if list == [] then first == 0
    else first == list[0] != 0 && first in next && Linked(next, next[first], list[1..])
  }

  /** Buffers that exist: those of `a` are in use and those of `b` are free, all different. */
  ghost predicate Owns(all: set<Buf>, a: seq<Buf>, b: seq<Buf>)
  {
    multiset(a) + multiset(b) <= multiset(all)
  }

  /** Links of other buffers do not matter to a list. */
  lemma {:induction false} LinkedFrame(next: map<Buf, Buf>, next2: map<Buf, Buf>, first: Buf, list: seq<Buf>)
    requires Linked(next, first, list)
    requires forall b :: b in list && b in next ==> b in next2 && next2[b] == next[b]
    ensures Linked(next2, first, list)
    decreases |list|
  {
    if list != [] {
      LinkedFrame(next, next2, next[first], list[1..]);
    }
  }

  lemma {:induction false} MultisetSize(m: multiset<Buf>, all: set<Buf>)
    requires m <= multiset(all)
    ensures |m| <= |all|
  {
    if m != multiset{} {
      var x :| x in m;
      MultisetSize(m - multiset{x}, all - {x});
      assert |m| == |m - multiset{x}| + 1;
    }
  }

  /** One buffer becomes free. */
  lemma OwnsMove(all: set<Buf>, a: seq<Buf>, x: Buf, rest: seq<Buf>, free: seq<Buf>)
    requires Owns(all, a, free) && multiset(a) == multiset(rest) + multiset{x}
    ensures x in all && x !in rest && x !in free && Owns(all, rest, [x] + free)
  {
    MemberCount(free, x);
    MemberCount(rest, x);
    assert (multiset(a) + multiset(free))[x] <= multiset(all)[x] <= 1;
    assert multiset([x] + free) == multiset{x} + multiset(free);
  }

  // ---------- memory ----------

  ghost predicate Within(addr: nat, width: nat, given: seq<Region>)
  {
    exists k :: 0 <= k < |given| && Inside(Region(addr, width), given[k])
  }

  /** Each buffer has its own piece of `width` bytes of the memory handed out. */
  ghost predicate Placed(slots: map<Buf, nat>, width: nat, given: seq<Region>)
  {
    && (forall b :: b in slots ==> Within(slots[b], width, given))
    && (forall b, c :: b in slots && c in slots && b != c ==>
          Apart(Region(slots[b], width), Region(slots[c], width)))
  }

  /** All pieces lie before `lo` or from `hi` on. */
  ghost predicate Clear(slots: map<Buf, nat>, width: nat, lo: nat, hi: nat)
  {
    forall b :: b in slots ==> slots[b] + width <= lo || hi <= slots[b]
  }

  /** A freshly allocated region is clear of everything placed before. */
  lemma FreshClear(slots: map<Buf, nat>, width: nat, given: seq<Region>, r: Region)
    requires Placed(slots, width, given)
    requires forall i, j :: 0 <= i < j < |given + [r]| ==> Apart((given + [r])[i], (given + [r])[j])
    ensures Clear(slots, width, r.base, r.base + r.size) && Placed(slots, width, given + [r])
  {
    var more := given + [r];
    forall b | b in slots
      ensures Within(slots[b], width, more)
      ensures slots[b] + width <= r.base || r.base + r.size <= slots[b]
    {
      var k :| 0 <= k < |given| && Inside(Region(slots[b], width), given[k]);
      assert more[k] == given[k] && more[|given|] == r;
    }
  }

  /** The next piece of a clear region. */
  lemma PlaceOne(slots: map<Buf, nat>, width: nat, given: seq<Region>, r: Region, b: Buf, addr: nat)
    requires Placed(slots, width, given) && r in given && b !in slots
    requires Clear(slots, width, addr, r.base + r.size) && r.base <= addr && addr + width <= r.base + r.size
    ensures Placed(slots[b := addr], width, given)
    ensures Clear(slots[b := addr], width, addr + width, r.base + r.size)
  {
    var k :| 0 <= k < |given| && given[k] == r;
    assert Inside(Region(addr, width), given[k]);
  }

  lemma FreshName(slots: map<Buf, nat>, width: nat, lo: nat, hi: nat)
    requires width >= 1 && Clear(slots, width, lo, hi) && lo + width <= hi
    requires forall b :: b in slots ==> slots[b] == b
    ensures lo !in slots
  {
  }

  /** Lists taken from the back of a queue, each pushed front to back. */
  function Pushed(chains: seq<seq<Buf>>, list: seq<Buf>): seq<Buf>
  {
    if chains == [] then list
    else Pushed(chains[..|chains| - 1], Reversed(chains[|chains| - 1]) + list)
  }

  class Pool {
    const bufSize: nat            // zero for a pool of descriptors without data
    const level: nat              // least number of buffers added at a time
    const desc: nat               // size of a descriptor
    const data: XlioHeap          // may be the same as `meta` when there is no data
    const meta: XlioHeap
    var head: Buf
    var next: map<Buf, Buf>       // a field of each descriptor
    var where: map<Buf, nat>      // likewise: address of its data
    var n: nat
    var created: nat
    var degraded: bool
    ghost var list: seq<Buf>      // free buffers, head first
    ghost var descs: map<Buf, nat>

    /** The free list is well formed, and its count is right. */
    ghost predicate Listed()
      reads this`next, this`head, this`list, this`n, this`descs
    {
      Linked(next, head, list) && n == |list| && 0 !in descs && Owns(descs.Keys, [], list)
    }

    /** Descriptors and data of different buffers are apart. */
    ghost predicate Memory()
      reads this`descs, this`where, meta, data
    {
      && (bufSize > 0 ==> meta != data) && desc >= 1
      && Heap.Inv(meta.Contents()) && Heap.Inv(data.Contents())
      && (forall b :: b in descs ==> descs[b] == b)
      && Placed(descs, desc, meta.given)
      && (bufSize > 0 ==> where.Keys == descs.Keys && Placed(where, bufSize, data.given))
    }

    ghost predicate Valid()
      reads this, meta, data
    {
      Listed() && Memory() && created == |descs|
    }

    constructor (bufSize: nat, level: nat, desc: nat, data: XlioHeap, meta: XlioHeap)
      requires desc >= 1 && (bufSize > 0 ==> meta != data) && Heap.Inv(meta.Contents()) && Heap.Inv(data.Contents())
      ensures Valid() && list == [] && descs == map[] && !degraded
      ensures this.bufSize == bufSize && this.level == level && this.desc == desc
      ensures this.data == data && this.meta == meta
    {
      this.bufSize, this.level, this.desc, this.data, this.meta := bufSize, level, desc, data, meta;
      head, next, where, n, created, degraded := 0, map[], map[], 0, 0, false;
      list, descs := [], map[];
    }

    /** More buffers can never be free than exist, so the check for that never fires. */
    lemma NeverTooMany()
      requires Listed() && created == |descs|
      ensures n <= created
    {
      MultisetSize(multiset(list), descs.Keys);
    }

    method PutBuffer(b: Buf, ghost rest: seq<Buf>)
      requires Listed() && Owns(descs.Keys, rest + [b], list)
      modifies this`head, this`next, this`n, this`list
      ensures Listed() && list == [b] + old(list) && next == old(next)[b := old(head)]
      ensures Owns(descs.Keys, rest, list)
    {
      OwnsMove(descs.Keys, rest + [b], b, rest, list);
      LinkedFrame(next, next[b := head], head, list);
      next := next[b := head];
      head, n := b, n + 1;
      list := [b] + list;
      assert list[1..] == old(list);
    }

    /** Return a list of buffers linked through their descriptors. */
    method PutList(first: Buf, ghost chain: seq<Buf>, ghost rest: seq<Buf>)
      requires Listed() && created == |descs| && Linked(next, first, chain)
      requires Owns(descs.Keys, rest + chain, list)
      modifies this`head, this`next, this`n, this`list
      ensures Listed() && list == Reversed(chain) + old(list)
      ensures Owns(descs.Keys, rest, list)
      ensures forall b :: b in old(next) && b !in chain ==> b in next && next[b] == old(next)[b]
      ensures n <= created
    {
      hide Linked, Owns, Reversed;
      var cur := first;
      ghost var left, done := chain, [];
      assert Reversed(done) + list == list by { ReversedContents(done); }
      while cur != 0
        invariant Listed() && Linked(next, cur, left) && chain == done + left
        invariant list == Reversed(done) + old(list) && Owns(descs.Keys, rest + left, list)
        invariant forall b :: b in old(next) && b !in chain ==> b in next && next[b] == old(next)[b]
        decreases |left|
      {
        LinkedStep(next, cur, left);
        Advance(done, left, rest, old(list));
        OwnsSame(descs.Keys, rest + left, rest + left[1..] + [cur], list);
        OwnsMove(descs.Keys, rest + left, cur, rest + left[1..], list);
        var follow := next[cur];
        ghost var was := next;
        PutBuffer(cur, rest + left[1..]);
        LinkedFrame(was, next, follow, left[1..]);
        done, left, cur := done + [cur], left[1..], follow;
      }
      LinkedStep(next, cur, left);
      assert rest + left == rest && done == chain;
      NeverTooMany();
    }

    /** Return an array of buffers, from its end. */
    method PutVector(bufs: seq<Buf>)
      requires Listed() && created == |descs| && Owns(descs.Keys, bufs, list)
      modifies this`head, this`next, this`n, this`list
      ensures Listed() && list == bufs + old(list) && n <= created
    {
      hide Linked, Owns;
      var count := |bufs|;
      assert bufs[..count] == bufs;
      while count > 0
        invariant 0 <= count <= |bufs| && Listed() && list == bufs[count..] + old(list)
        invariant Owns(descs.Keys, bufs[..count], list)
      {
        count := count - 1;
        assert bufs[..count] + [bufs[count]] == bufs[..count + 1];
        PutBuffer(bufs[count], bufs[..count]);
        assert [bufs[count]] + bufs[count + 1..] == bufs[count..];
      }
      NeverTooMany();
    }

    /** Return up to `count` entries from the back of a queue, each with what is linked to it. */
    method PutQueue(queue: seq<Buf>, count: nat, ghost chains: seq<seq<Buf>>) returns (rest: seq<Buf>)
      requires Listed() && created == |descs| && |chains| == |queue| && Owns(descs.Keys, Flat(chains), list)
      requires forall i :: 0 <= i < |queue| ==> Linked(next, queue[i], chains[i])
      modifies this`head, this`next, this`n, this`list
      ensures Listed() && n <= created
      ensures var left := if count < |queue| then |queue| - count else 0;
              rest == queue[..left] && list == Pushed(chains[left..], old(list))
    {
      hide Linked, Owns, Reversed, Flat;
      rest := queue;
      var amount := if count < |queue| then count else |queue|;
      ghost var stop := |queue| - amount;
      assert chains[stop..|queue|] == chains[stop..] && chains[..|queue|] == chains;
      while amount > 0
        invariant 0 <= amount <= |rest| <= |queue| && rest == queue[..|rest|] && |rest| - amount == stop
        invariant Listed() && Owns(descs.Keys, Flat(chains[..|rest|]), list)
        invariant forall i :: 0 <= i < |rest| ==> Linked(next, queue[i], chains[i])
        invariant Pushed(chains[stop..], old(list)) == Pushed(chains[stop..|rest|], list)
        decreases amount
      {
        var m := |rest| - 1;
        ghost var was, free := next, list;
        FlatStep(chains, m);
        PutList(rest[m], chains[m], Flat(chains[..m]));
        forall i | 0 <= i < m
          ensures Linked(next, queue[i], chains[i])
        {
          StillLinked(was, next, queue[i], chains[..m], i, chains[m], descs.Keys, free);
        }
        assert chains[stop..m + 1][..m - stop] == chains[stop..m];
        rest, amount := rest[..m], amount - 1;
      }
      NeverTooMany();
    }

    /** Take `count` buffers from the head of the list. */
    method Pop(count: nat) returns (got: seq<Buf>)
      requires Listed() && count <= n
      modifies this`head, this`next, this`n, this`list
      ensures Listed() && Granted(got, list) == Take(old(list), count)
      ensures Owns(descs.Keys, got, list)
    {
      hide Linked, Owns;
      n := n - count;
      got := [];
      var left := count;
      ghost var free := list;
      while left > 0
        invariant 0 <= left <= count && n + left == |list|
        invariant got == free[..count - left] && list == free[count - left..]
        invariant Linked(next, head, list) && Owns(descs.Keys, got, list)
      {
        LinkedStep(next, head, list);
        var b := head;
        head := next[head];
        OwnsPop(descs.Keys, got, list);
        LinkedFrame(next, next[b := 0], head, list[1..]);
        next := next[b := 0];
        assert got + [b] == free[..count - left + 1] && list[1..] == free[count - left + 1..];
        got, list := got + [b], list[1..];
        left := left - 1;
      }
      OwnsFree(descs.Keys, got, list);
    }

    /** From `at` there is room for `left` descriptors in `m`, and from `addr` for their data in `d`. */
    ghost predicate Room(at: nat, addr: nat, left: nat, m: Region, d: Option<Region>)
      reads this`descs, this`where, meta`given, data`given
    {
      && m in meta.given && Clear(descs, desc, at, m.base + m.size)
      && 0 < m.base <= at && at + Times(left, desc) <= m.base + m.size
      && (bufSize > 0 ==>
            && d.Some? && d.value in data.given && Clear(where, bufSize, addr, d.value.base + d.value.size)
            && d.value.base <= addr && addr + Times(left, bufSize) <= d.value.base + d.value.size)
    }

    /** Make the buffer with descriptor `at` and data `addr`, and put it on the free list. */
    method Create(at: nat, addr: nat, ghost left: nat, ghost m: Region, ghost d: Option<Region>)
      requires Listed() && Memory() && left > 0 && Room(at, addr, left, m, d)
      modifies this`head, this`next, this`n, this`list, this`where, this`descs
      ensures Listed() && Memory() && Room(at + desc, addr + bufSize, left - 1, m, d)
      ensures list == [at] + old(list) && |descs| == |old(descs)| + 1
    {
      hide Listed, Memory, Room;
      Describe(at, addr, left, m, d);
      PutBuffer(at, []);
    }

    method Describe(at: nat, addr: nat, ghost left: nat, ghost m: Region, ghost d: Option<Region>)
      requires Listed() && Memory() && left > 0 && Room(at, addr, left, m, d)
      modifies this`where, this`descs
      ensures Listed() && Memory() && Room(at + desc, addr + bufSize, left - 1, m, d)
      ensures |descs| == |old(descs)| + 1 && Owns(descs.Keys, [] + [at], list)
    {
      hide Linked, Owns, Placed, Clear, Heap.Inv, Heap.XlioHeap.Contents, Times;
      TimesStep(left, desc);
      TimesStep(left, bufSize);
      FreshName(descs, desc, at, m.base + m.size);
      PlaceOne(descs, desc, meta.given, m, at, at);
      if bufSize > 0 {
        PlaceOne(where, bufSize, data.given, d.value, at, addr);
      }
      OwnsNew(descs, at, list);
      where := where[at := addr];
      descs := descs[at := at];
    }

    /** Turn allocated memory into free buffers, one by one. */
    method Fill(m: Region, d: Option<Region>, count: nat)
      requires Listed() && Memory() && Room(m.base, if d.Some? then d.value.base else 0, count, m, d)
      modifies this`head, this`next, this`n, this`list, this`where, this`descs
      ensures Listed() && Memory() && |descs| == |old(descs)| + count
      ensures |list| == |old(list)| + count && list[count..] == old(list)
    {
      hide Listed, Memory, Room;
      var at: nat, addr: nat, i: nat := m.base, if d.Some? then d.value.base else 0, 0;
      while i < count
        invariant i <= count && Listed() && Memory() && Room(at, addr, count - i, m, d)
        invariant |descs| == |old(descs)| + i
        invariant |list| == |old(list)| + i && list[i..] == old(list)
      {
        ghost var was := list;
        Create(at, addr, count - i, m, d);
        assert ([at] + was)[i + 1..] == was[i..];
        at, addr, i := at + desc, addr + bufSize, i + 1;
      }
    }

    /** Memory for the data of `count` buffers, and how many it really holds. */
    method AllocData(count: nat, offer: Option<Region>) returns (d: Option<Region>, c: nat)
      requires Valid() && bufSize > 0 && Sane(data, Times(count, bufSize), offer)
      modifies data
      ensures Valid()
      ensures d.Some? ==>
                && d.value in data.given && Clear(where, bufSize, d.value.base, d.value.base + d.value.size)
                && c == Need(count) >= count
                && Times(c, bufSize) <= d.value.size
      ensures d.None? ==> data.given == old(data.given)
    {
      hide Listed, Heap.Inv, Alloc, RoundUp, Placed, Clear, Offered, Times, Pow2;
      ghost var h := data.Contents();
      var tries;
      TimesIs(count, bufSize);
      d, tries := data.Allocate(bufSize * count, [offer]);
      AllocGives(h, Times(count, bufSize), offer);
      c := 0;
      if d.Some? {
        FreshClear(where, bufSize, h.given, d.value);
        Pieces(d.value.size, bufSize, count);
        c := d.value.size / bufSize;
      }
    }

    method AllocMeta(count: nat, offer: Option<Region>) returns (m: Option<Region>)
      requires Valid() && Sane(meta, Times(count, desc), offer)
      modifies meta
      ensures Valid()
      ensures m.Some? ==>
                && m.value in meta.given && Clear(descs, desc, m.value.base, m.value.base + m.value.size)
                && m.value.base > 0 && Times(count, desc) <= m.value.size
      ensures m.None? ==> meta.given == old(meta.given)
    {
      hide Listed, Heap.Inv, Alloc, RoundUp, Placed, Clear, Offered, Pow2;
      ghost var h := meta.Contents();
      var tries;
      TimesIs(count, desc);
      m, tries := meta.Allocate(count * desc, [offer]);
      AllocGives(h, Times(count, desc), offer);
      if m.Some? {
        FreshClear(descs, desc, h.given, m.value);
      }
    }

    /** How many descriptors an expansion by `count` asks for: as many as the data memory holds. */
    ghost function Need(count: nat): nat
    {
      if bufSize > 0 then Lap(RoundUp(Times(count, bufSize), data.shift), bufSize) else count
    }

    /** Add at least `count` buffers, or none. */
    method Expand(count: nat, dataOffer: Option<Region>, metaOffer: Option<Region>) returns (ok: bool)
      requires Valid() && count >= 1
      requires bufSize > 0 ==> Sane(data, Times(count, bufSize), dataOffer)
      requires Sane(meta, Times(Need(count), desc), metaOffer)
      modifies this`head, this`next, this`n, this`list, this`where, this`descs, this`created, meta, data
      ensures Valid()
      ensures ok ==> |list| >= |old(list)| + count && list[|list| - |old(list)|..] == old(list)
      ensures !ok ==> list == old(list) && descs == old(descs)
    {
      hide Listed, Heap.Inv, Heap.XlioHeap.Contents, Placed, Clear, Times, RoundUp, Sane, Pow2;
      var d, c := None, count;
      if bufSize != 0 {
        d, c := AllocData(count, dataOffer);
        if d.None? {
          return false;
        }
      }
      var m := AllocMeta(c, metaOffer);
      if m.None? {
        return false;
      }
      Pieces(m.value.size, desc, c);
      if d.None? {
        c := m.value.size / desc;
      }
      Fill(m.value, d, c);
      created := created + c;
      return true;
    }

    /**
     Take `count` buffers, all or none, after one attempt to add some when there are too few; once
     an attempt has failed the pool stays as it is.
     */
    method GetBuffers(count: nat, dataOffer: Option<Region>, metaOffer: Option<Region>) returns (got: Option<seq<Buf>>)
      requires Valid()
      requires n < count && !degraded ==>
                 var c := if level > count then level else count;
                 && (bufSize > 0 ==> Sane(data, Times(c, bufSize), dataOffer))
                 && Sane(meta, Times(Need(c), desc), metaOffer)
      modifies this, meta, data
      ensures Valid()
      ensures got.None? ==> list == old(list)
      ensures got.Some? ==> |got.value| == count && Owns(descs.Keys, got.value, list)
      ensures got.Some? && old(n) >= count ==> Granted(got.value, list) == Take(old(list), count)
      ensures got.None? <==> old(n) < count && degraded
      ensures degraded ==> descs == old(descs)
    {
      hide Listed, Memory;
      ListedCount();
      if n < count && !degraded {
        var more := if level > count then level else count;
        var ok := Expand(more, dataOffer, metaOffer);
        degraded := !ok;
      }
      ListedCount();
      if n < count {
        return None;
      }
      var bufs := Pop(count);
      return Some(bufs);
    }

    lemma ListedCount()
      requires Listed()
      ensures n == |list|
    {
    }
  }

  /** A request of `size` bytes whose 64-bit sums do not wrap, and what the system offers for it. */
  ghost predicate Sane(h: XlioHeap, size: nat, offer: Option<Region>)
    reads h
  {
    var n := RoundUp(size, h.shift);
    && size + Pow2(h.shift) - 1 < TWO64 && n + h.offset < TWO64
    && Offered(h.Contents(), n, offer)
  }

  /** A heap hands out new memory of the rounded size, or changes nothing. */
  lemma AllocGives(h: Heap.State, size: nat, offer: Option<Region>)
    requires Heap.Inv(h) && size + Pow2(h.shift) - 1 < TWO64
    requires Heap.Inv(Alloc(h, RoundUp(size, h.shift), offer))
    ensures var g := Alloc(h, RoundUp(size, h.shift), offer).given;
            && (g == h.given || (|g| == |h.given| + 1 && g[..|h.given|] == h.given))
            && (g != h.given ==>
                  && g == h.given + [g[|g| - 1]] && g[|g| - 1].base > 0 && g[|g| - 1].size == RoundUp(size, h.shift) >= size
                  && forall i, j :: 0 <= i < j < |g| ==> Apart(g[i], g[j]))
  {
    hide RoundUp, Fits, Pow2;
    RoundUpIs(size, h.shift);
    InvParts(h);
    var r := Alloc(h, RoundUp(size, h.shift), offer);
    if r.given != h.given {
      var k := |h.given|;
      assert Inside(r.given[k], r.blocks[r.homes[k]]);
    }
  }

  /** As many pieces as fit. */
  lemma Pieces(size: nat, width: nat, count: nat)
    requires width >= 1 && Times(count, width) <= size
    ensures size / width == Lap(size, width) >= count && Times(size / width, width) <= size
  {
    hide Times, Lap;
    WrapIsMod(size, width);
    TimesIs(count, width);
    TimesIs(size / width, width);
    Quotient(size, width, size / width, size % width, count);
  }

  lemma Quotient(size: nat, width: nat, q: nat, r: nat, count: nat)
    requires r < width && size == q * width + r && count * width <= size
    ensures q >= count
  {
    Scale(count - q, width);
    assert (count - q) * width == count * width - q * width;
  }

  /** `count` pieces of `width` bytes. */
  function Times(count: nat, width: nat): nat
  {
    if count == 0 then 0 else width + Times(count - 1, width)
  }

  lemma TimesStep(count: nat, width: nat)
    requires count > 0
    ensures Times(count, width) == width + Times(count - 1, width)
  {
  }

  lemma {:induction false} TimesIs(count: nat, width: nat)
    ensures Times(count, width) == count * width
  {
    if count > 0 {
      TimesIs(count - 1, width);
      assert count * width == (count - 1) * width + width;
    }
  }

  lemma OwnsNew(slots: map<Buf, nat>, b: Buf, free: seq<Buf>)
    requires Owns(slots.Keys, [], free) && b !in slots
    ensures var all := slots[b := b].Keys;
            Owns(all, [] + [b], free) && Owns(all, [], free) && |slots[b := b]| == |slots| + 1
  {
    assert multiset([]) + multiset(free) == multiset(free);
    assert slots[b := b].Keys == slots.Keys + {b};
    assert multiset(slots.Keys + {b}) == multiset(slots.Keys) + multiset{b};
  }

  lemma OwnsFree(all: set<Buf>, a: seq<Buf>, free: seq<Buf>)
    requires Owns(all, a, free)
    ensures Owns(all, [], free)
  {
  }

  function Flat(chains: seq<seq<Buf>>): seq<Buf>
  {
    if chains == [] then [] else Flat(chains[..|chains| - 1]) + chains[|chains| - 1]
  }

  lemma FlatStep(chains: seq<seq<Buf>>, m: nat)
    requires m < |chains|
    ensures Flat(chains[..m + 1]) == Flat(chains[..m]) + chains[m]
  {
    assert chains[..m + 1][..m] == chains[..m];
  }

  lemma {:induction false} FlatMember(chains: seq<seq<Buf>>, i: nat, b: Buf)
    requires i < |chains| && b in chains[i]
    ensures b in Flat(chains)
  {
    if i < |chains| - 1 { FlatMember(chains[..|chains| - 1], i, b); }
  }

  /** Returning one list leaves the others as they were. */
  lemma StillLinked(next: map<Buf, Buf>, next2: map<Buf, Buf>, first: Buf, chains: seq<seq<Buf>>, i: nat,
                    gone: seq<Buf>, all: set<Buf>, free: seq<Buf>)
    requires i < |chains| && Linked(next, first, chains[i]) && Owns(all, Flat(chains) + gone, free)
    requires forall b :: b in next && b !in gone ==> b in next2 && next2[b] == next[b]
    ensures Linked(next2, first, chains[i])
  {
    forall b | b in chains[i]
      ensures b !in gone
    {
      FlatMember(chains, i, b);
      assert multiset(Flat(chains) + gone)[b] == multiset(Flat(chains))[b] + multiset(gone)[b] <= multiset(all)[b];
    }
    LinkedFrame(next, next2, first, chains[i]);
  }

  /** The first free buffer is taken. */
  lemma OwnsPop(all: set<Buf>, a: seq<Buf>, free: seq<Buf>)
    requires Owns(all, a, free) && free != []
    ensures Owns(all, a + [free[0]], free[1..]) && free[0] !in free[1..]
  {
    PopContents(free);
    MemberCount(free[1..], free[0]);
    assert multiset(free)[free[0]] <= multiset(all)[free[0]] <= 1;
  }

  lemma LinkedStep(next: map<Buf, Buf>, first: Buf, list: seq<Buf>)
    requires Linked(next, first, list)
    ensures first == 0 <==> list == []
    ensures list != [] ==> first == list[0] && first in next && Linked(next, next[first], list[1..])
  {
  }

  lemma OwnsSame(all: set<Buf>, a: seq<Buf>, b: seq<Buf>, free: seq<Buf>)
    requires Owns(all, a, free) && multiset(a) == multiset(b)
    ensures Owns(all, b, free)
  {
  }

  /** One buffer moves from the list being returned to the free list. */
  lemma Advance(done: seq<Buf>, left: seq<Buf>, rest: seq<Buf>, free: seq<Buf>)
    requires left != []
    ensures done + left == done + [left[0]] + left[1..]
    ensures [left[0]] + (Reversed(done) + free) == Reversed(done + [left[0]]) + free
    ensures multiset(rest + left) == multiset(rest + left[1..]) + multiset{left[0]} == multiset(rest + left[1..] + [left[0]])
  {
    ReversedSnoc(done, left[0]);
    assert left == [left[0]] + left[1..];
  }
}
