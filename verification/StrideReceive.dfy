/**
 The receive manager of a striding queue, working in bytes as the source does;
 every method is tied to the function of module StridePath it computes.
 */
module StrideReceive {
  import opened Bits
  import opened Buffers
  import opened ReceivePath
  import opened ReceiveQueue
  import opened ReceiveManager
  import opened CompletionQueue
  import opened StridePath
  import opened StrideQueue

  /** The byte count of a completion carries the number of strides and the filler mark. */
  function StridesOf(byteCnt: nat): nat { byteCnt / 0x1_0000 % 0x4000 }

  predicate IsFiller(byteCnt: nat) { byteCnt / 0x8000_0000 != 0 }

  function Cuts(es: seq<Cqe>): (r: seq<Cut>)
    ensures |r| == |es|
  {
    if es == [] then []
    else [Cut(StridesOf(es[0].byteCnt), IsFiller(es[0].byteCnt))] + Cuts(es[1..])
  }

  lemma {:induction false} CutsSnoc(es: seq<Cqe>, e: Cqe)
    ensures Cuts(es + [e]) == Cuts(es) + [Cut(StridesOf(e.byteCnt), IsFiller(e.byteCnt))]
  {
    if es != [] {
      CutsSnoc(es[1..], e);
      assert (es + [e])[1..] == es[1..] + [e];
    }
  }

  /** Bytes and strides agree on when an entry is consumed. */
  lemma BytesAreStrides(size: nat, done: nat, k: nat, strides: nat)
    requires size >= 1
    ensures done * size + k * size == (done + k) * size
    ensures (done + k) * size >= strides * size <==> done + k >= strides
    ensures done * size / size == done
  {
    DivModUnique(done * size, size, done, 0);
    Scale(done + k - strides, size);
    assert (done + k - strides) * size == (done + k) * size - strides * size;
  }

  class CqMgrRxStrq {
    const base: CqMgrRx
    const cq: CompletionRing
    const strides: nat            // strides per ring entry
    const size: nat               // bytes per stride
    const level: nat              // batch of stride descriptors
    var consumed: nat             // bytes consumed of the current ring entry
    var hotStride: Buf
    var cache: seq<Buf>
    var spare: seq<Buf>
    var descs: set<Buf>
    var refs: map<Buf, int>
    var out: seq<Stride>
    var waiting: seq<Buf>         // received and waiting for the upper layer
    ghost var done: nat

    ghost predicate Shape()
      reads this, base, base.hq, base.hq.wrid, base.hq.wr, base.hq.ring, cq, cq.ring
    {
      && base.Valid() && cq.Valid()
      && size >= 1 && consumed == done * size
      && strides * base.hq.num <= cq.count
    }

    ghost predicate Valid()
      reads this, base, base.hq, base.hq.wrid, base.hq.wr, base.hq.ring, cq, cq.ring
    {
      Shape() && StrideInv(base.Cfg(), Geo(), State())
    }

    ghost function Geo(): Geometry
      reads this
    {
      Geometry(strides, level)
    }

    ghost function State(): Strq
      reads this, base, base.hq, cq
      requires base.Counters() && cq.taken <= |cq.written|
    {
      Strq(base.State([]), refs, done, Cuts(cq.Ready()), out, cache, spare, hotStride, descs)
    }

    /** With the strides that wait. */
    ghost function Whole(): Sq
      reads this, base, base.hq, cq
      requires base.Counters() && cq.taken <= |cq.written|
    {
      Sq(State(), waiting)
    }

    /** Reserving a first descriptor and giving it back fills the cache. */
    constructor (base: CqMgrRx, cq: CompletionRing, strides: nat, size: nat, level: nat, spare: seq<Buf>,
                 extra: seq<Buf>)
      requires base.Valid() && cq.Valid() && cq.Ready() == []
      requires strides >= 1 && size >= 1 && strides * base.hq.num <= cq.count
      requires Inv(base.Cfg(), base.State([])) && base.upper == multiset{} && base.rxQueue == [] && !base.hq.hot
      requires 0 !in spare && multiset(Elements(spare)) == multiset(spare)
      ensures Valid() && this.base == base && this.cq == cq
      ensures State() == FillCache(Geo(), Strq(base.State([]), map[], 0, [], [], [], spare, 0, Elements(spare)), extra)
      ensures waiting == []
    {
      hide HwQueueRx.RingHolds, HwQueueRx.TableHolds, Layout, Protocol, StrideInv, FillCache, Sound;
      this.base := base;
      this.cq := cq;
      this.strides := strides;
      this.size := size;
      this.level := level;
      consumed, hotStride, cache, refs, out, waiting := 0, 0, [], map[], [], [];
      this.spare, descs := spare, Elements(spare);
      done := 0;
      new;
      NothingOut(base.Cfg(), Geo(), base.State([]), spare);
      FillFirst(extra);
    }

    /** The ring is brought up: it is filled for the first time. */
    method AddRing(extras: seq<seq<Buf>>)
      requires Valid() && Owed(State().rx) == 0 && hotStride == 0
      modifies this`hotStride, this`consumed, base`debt, base`global, base`created, base.hq`curr, base.hq`counter,
               base.hq`head, base.hq`log, base.hq.wrid, base.hq.wr, base.hq.ring
      ensures Valid() && State() == old(State()).(rx := Fill(base.Cfg(), old(State()).rx, base.hq.num, extras))
    {
      hide HwQueueRx.RingHolds, HwQueueRx.TableHolds, Layout, Protocol, StrideInv, Fill;
      Unstarted(base.Cfg(), Geo(), State());
      StridePath.StartKeeps(base.Cfg(), Geo(), State(), extras);
      hotStride, consumed := 0, 0;
      base.AddHqrx(extras, []);
    }

    method FillFirst(extra: seq<Buf>)
      requires Valid()
      modifies this`cache, this`spare, this`descs, this`hotStride
      ensures Valid() && State() == FillCache(Geo(), old(State()), extra)
    {
      hide HwQueueRx.RingHolds, HwQueueRx.TableHolds, Layout, Protocol, StrideInv, Reserve, StridePath.GiveBack;
      FillCacheKeeps(base.Cfg(), Geo(), State(), extra);
      NextStride(extra);
      if hotStride != 0 {
        var d := hotStride;
        hotStride := 0;
        ReturnStride(d);
      }
    }

    /** The hardware fills `k` more strides; the completion queue always has room for that. */
    method HwCompleteStrides(k: nat, filler: bool, bytes: nat)
      requires Valid() && k < 0x4000 && bytes < 0x1_0000
      requires Fits(strides, done, Cuts(cq.Ready()) + [Cut(k, filler)], |base.hq.Posted()|)
      modifies cq, cq.ring
      ensures Valid() && State() == HwCut(Geo(), old(State()), k, filler)
    {
      hide StridesOf, IsFiller, Fits, Cuts, HwQueueRx.RingHolds, HwQueueRx.TableHolds, Layout, Protocol, StrideInv;
      ghost var before := cq.Ready();
      OwedBound(base.Cfg(), Geo(), State());
      RoomLeft(strides, done, Cuts(before) + [Cut(k, filler)], |base.hq.Posted()|, base.hq.num);
      CutKeeps(base.Cfg(), Geo(), State(), k, filler);
      var byteCnt := bytes + k * 0x1_0000 + (if filler then 0x8000_0000 else 0);
      FieldsOf(k, filler, bytes);
      cq.Produce(2, 0, byteCnt);
      ghost var e := cq.written[|cq.written| - 1];
      assert cq.Ready() == before + [e];
      CutsSnoc(before, e);
    }

    method SetCurrentHotBuffer()
      requires Valid()
      modifies this`refs, base`hot, base.hq`hot, base.hq.wrid
      ensures Valid() && State() == SetHot(Geo(), old(State()))
      ensures base.hot == 0 <==> base.hq.Posted() == []
    {
      hide HwQueueRx.RingHolds, HwQueueRx.TableHolds, Layout, Protocol, StrideInv;
      SetHotKeeps(base.Cfg(), Geo(), State());
      if base.hot == 0 {
        base.SetHotBuffer([]);
        if base.hot != 0 {
          refs := refs[base.hot := strides];
        }
      }
    }

    /** Fill the cache; the global pool of descriptors makes more when it runs short. */
    method RestockCache(extra: seq<Buf>)
      modifies this`cache, this`spare, this`descs
      ensures base.Counters() && cq.taken <= |cq.written| ==> State() == Restock(Geo(), old(State()), extra)
    {
      hide Admissible, Elements;
      if |spare| < level && Admissible(extra, descs) {
        spare, descs := extra + spare, descs + Elements(extra);
      }
      var got := Take(spare, level);
      if got.Granted? {
        cache, spare := cache + got.taken, got.free;
      }
    }

    /** Reserve a stride descriptor for the next completion. */
    method NextStride(extra: seq<Buf>)
      requires Valid()
      modifies this`cache, this`spare, this`descs, this`hotStride
      ensures Valid() && State() == Reserve(Geo(), old(State()), extra)
    {
      hide HwQueueRx.RingHolds, HwQueueRx.TableHolds, Layout, Protocol, StrideInv, Restock;
      ReserveKeeps(base.Cfg(), Geo(), State(), extra);
      if hotStride == 0 {
        if cache == [] {
          RestockCache(extra);
        }
        if cache != [] {
          hotStride, cache := cache[|cache| - 1], cache[..|cache| - 1];
        }
      }
    }

    /** A stride descriptor comes back to the cache; a surplus goes to the global pool. */
    method ReturnStride(d: Buf)
      modifies this`cache, this`spare
      ensures base.Counters() && cq.taken <= |cq.written| ==> State() == GiveBack(Geo(), old(State()), d)
    {
      cache := cache + [d];
      if |cache| >= level * 2 {
        cache, spare := cache[..level], cache[level..] + spare;
      }
    }
  
    /** Put a returned descriptor where it belongs. */
    method PutStride(d: Buf, viaQueue: bool)
      modifies this`cache, this`spare
      ensures base.Counters() && cq.taken <= |cq.written| ==> State() == PutDesc(Geo(), old(State()), d, viaQueue)
    {
      if viaQueue {
        ReturnStride(d);
      } else {
        spare := [d] + spare;
      }
    }

    /** Take the i-th outstanding stride off its buffer's count, and recycle the buffer at zero. */
    method DropStrides(i: nat, viaQueue: bool)
      requires Valid() && i < |out|
      modifies this`out, this`refs, base`rxPool, base`global, base`upper
      ensures Shape() && State() == Drop(old(State()), i, viaQueue)
    {
      hide HwQueueRx.RingHolds, HwQueueRx.TableHolds, Layout, Protocol, StrideInv, Reclaim, Sound;
      var st := out[i];
      var before := RefOf(refs, st.rwqe);
      LastIsHeld(base.Cfg(), Geo(), State(), i);
      out := out[..i] + out[i + 1..];
      refs := refs[st.rwqe := before - st.k];
      if st.k == before {
        var _ := base.ReclaimRecvBuffer([st.rwqe], viaQueue, Refs(0, 0), []);
        refs := refs[st.rwqe := 0];
      }
    }

    /**
     A stride comes back, in any order, from the queue's user or from the global pool.  Its buffer
     is recycled by the last stride of a complete entry.
     */
    method ReclaimStride(i: nat, viaQueue: bool)
      requires Valid() && i < |out|
      modifies this`out, this`refs, this`cache, this`spare, base`rxPool, base`global, base`upper
      ensures Valid() && State() == Return(Geo(), old(State()), i, viaQueue)
    {
      hide HwQueueRx.RingHolds, HwQueueRx.TableHolds, Layout, Protocol, StrideInv, Drop, PutDesc;
      ReturnKeeps(base.Cfg(), Geo(), State(), i, viaQueue);
      var d := out[i].desc;
      DropStrides(i, viaQueue);
      PutStride(d, viaQueue);
    }
  
    /** The buffer of a complete entry leaves the ring and lives on in its strides. */
    method RetireEntry()
      requires base.Valid() && base.hot != 0
      modifies base`hot, base`upper, base.hq`hot, base.hq`tail, base.hq`polled
      ensures base.Valid() && base.State([]) == Retire(old(base.State([])))
    {
      hide HwQueueRx.RingHolds, HwQueueRx.TableHolds, Layout, Protocol;
      var w := base.RetireHotBuffer([]);
      base.upper := base.upper + multiset{w};
    }

    /** Describe the next `k` strides, and tell whether they use the entry up. */
    method DescribeStride(k: nat) returns (complete: bool)
      requires size >= 1 && consumed == done * size
      modifies this`consumed, this`done, this`out, this`hotStride
      ensures consumed == done * size && hotStride == 0
      ensures out == old(out) + [Stride(old(hotStride), base.hot, old(done), k)]
      ensures (done, complete) == Consume(strides, old(done), k)
    {
      BytesAreStrides(size, done, k, strides);
      out := out + [Stride(hotStride, base.hot, consumed / size, k)];
      hotStride := 0;
      consumed, done := consumed + k * size, done + k;
      complete := consumed >= strides * size;
      if complete {
        consumed, done := 0, 0;
      }
    }

    /** Consume one completion: describe its strides, and retire the entry when it is used up. */
    method HandOutStride(cqe: Cqe) returns (complete: bool, filler: bool)
      requires Valid() && base.hot != 0 && hotStride != 0
      requires cq.Ready() != [] && cqe == cq.Ready()[0]
      modifies this`consumed, this`done, this`out, this`hotStride, base`hot, base`upper,
               base.hq`hot, base.hq`tail, base.hq`polled, cq`ci, cq`taken
      ensures Valid() && State() == HandOut(Geo(), old(State()))
      ensures complete == Consume(strides, old(done), old(State()).cuts[0].k).1
      ensures filler == old(State()).cuts[0].filler
    {
      hide HwQueueRx.RingHolds, HwQueueRx.TableHolds, Layout, Protocol, StrideInv, StridesOf, IsFiller,
           Consume, Retire, Sound;
      ghost var s := State();
      HandOutKeeps(base.Cfg(), Geo(), s);
      var k := StridesOf(cqe.byteCnt);
      filler := IsFiller(cqe.byteCnt);
      cq.Advance();
      assert s.cuts == [Cut(k, filler)] + Cuts(cq.Ready());
      complete := DescribeStride(k);
      if complete {
        RetireEntry();
      }
      assert base.State([]) == if complete then Retire(s.rx) else s.rx;
    }

    /** Handle one completion; a filler's stride comes back at once. */
    method ApplyCompletion(cqe: Cqe) returns (wqe: bool, stride: bool)
      requires Valid() && base.hot != 0 && hotStride != 0
      requires cq.Ready() != [] && cqe == cq.Ready()[0]
      modifies this, base`hot, base`upper, base`rxPool, base`global,
               base.hq`hot, base.hq`tail, base.hq`polled, cq`ci, cq`taken
      ensures Valid() && (Polled(wqe, stride), State()) == Apply(Geo(), old(State())) && waiting == old(waiting)
    {
      hide HwQueueRx.RingHolds, HwQueueRx.TableHolds, Layout, Protocol, StrideInv, Return, HandOut, Consume, Sound;
      var filler;
      wqe, filler := HandOutStride(cqe);
      stride := !filler;
      if filler {
        ReclaimStride(|out| - 1, true);
      }
    }

    /** With a buffer and a descriptor at hand, take the next completion if there is one. */
    method PollReserved() returns (wqe: bool, stride: bool)
      requires Valid() && base.hot != 0
      modifies this, base`hot, base`upper, base`rxPool, base`global,
               base.hq`hot, base.hq`tail, base.hq`polled, cq`ci, cq`taken
      ensures Valid() && waiting == old(waiting)
      ensures var s := old(State());
              (Polled(wqe, stride), State()) ==
                if s.hotStride == 0 || s.cuts == [] then (Polled(false, false), s) else Apply(Geo(), s)
    {
      hide HwQueueRx.RingHolds, HwQueueRx.TableHolds, Layout, Protocol, StrideInv, Apply;
      wqe, stride := false, false;
      var cqe := cq.Check();
      if hotStride != 0 && cqe.Some? {
        wqe, stride := ApplyCompletion(cqe.value);
      }
    }

    method PollStrides(extra: seq<Buf>) returns (wqe: bool, stride: bool)
      requires Valid()
      modifies this, base`hot, base`upper, base`rxPool, base`global,
               base.hq`hot, base.hq`tail, base.hq`polled, base.hq.wrid, cq`ci, cq`taken
      ensures Valid() && (Polled(wqe, stride), State()) == StridePath.Poll(Geo(), old(State()), extra)
      ensures waiting == old(waiting)
    {
      hide HwQueueRx.RingHolds, HwQueueRx.TableHolds, Layout, Protocol, StrideInv, Apply, Reserve;
      SetCurrentHotBuffer();
      if base.hot == 0 {
        return false, false;
      }
      NextStride(extra);
      wqe, stride := PollReserved();
    }

    /** Refill the ring; the strides are not concerned. */
    method Pay(buffers: seq<Buf>)
      requires Valid()
      modifies base`rxPool, base`debt, base`global, base`created, base.hq`curr, base.hq`counter,
               base.hq`head, base.hq`log, base.hq.wrid, base.hq.wr, base.hq.ring
      ensures Valid()
      ensures State() == old(State()).(rx := CompensateFailed(base.Cfg(), old(State()).rx, buffers))
    {
      hide HwQueueRx.RingHolds, HwQueueRx.TableHolds, Layout, Protocol, StrideInv, CompensateFailed;
      PayKeeps(base.Cfg(), Geo(), State(), buffers);
      base.CompensateQpPollFailed(buffers, []);
    }

    /** Enter a completed entry as debt, and pay once a batch is due. */
    method ChargeEntry(buffers: seq<Buf>)
      requires Valid() && Owed(State().rx) < base.hq.num
      modifies base`rxPool, base`debt, base`global, base`created, base.hq`curr, base.hq`counter,
               base.hq`head, base.hq`log, base.hq.wrid, base.hq.wr, base.hq.ring
      ensures Valid() && State() == StridePath.Charge(base.Cfg(), old(State()), buffers)
    {
      hide HwQueueRx.RingHolds, HwQueueRx.TableHolds, Layout, Protocol, StrideInv, CompensateFailed;
      OweKeeps(base.Cfg(), Geo(), State());
      base.debt := base.debt + 1;
      if base.debt >= base.hq.batch {
        Pay(buffers);
      }
    }

    /** A stride the upper layer refuses comes back at once. */
    method OfferLast(accept: bool)
      requires Valid()
      modifies this`out, this`refs, this`cache, this`spare, base`rxPool, base`global, base`upper
      ensures Valid() && State() == Offer(Geo(), old(State()), accept)
    {
      hide HwQueueRx.RingHolds, HwQueueRx.TableHolds, Layout, Protocol, StrideInv, Return;
      if !accept && |out| > 0 {
        ReclaimStride(|out| - 1, true);
      }
    }

    /** One turn of the polling loop. */
    method TurnOnce(e: StrideChoice) returns (wqe: bool, stride: bool)
      requires Valid()
      modifies this, base, base.hq, base.hq.wrid, base.hq.wr, base.hq.ring, cq
      ensures Valid() && (Polled(wqe, stride), State()) == Turn(base.Cfg(), Geo(), old(State()), e)
      ensures waiting == old(waiting)
    {
      hide HwQueueRx.RingHolds, HwQueueRx.TableHolds, Layout, Protocol, StrideInv,
           StridePath.Poll, StridePath.Charge, Offer, Sound;
      PollKeeps(base.Cfg(), Geo(), State(), e.strides);
      wqe, stride := PollStrides(e.strides);
      if wqe {
        ChargeEntry(e.buffers);
      }
      if stride {
        OfferLast(e.accept);
      }
    }

    /** Poll and handle completions until `max` strides were received or nothing is ready. */
    method PollElements(es: seq<StrideChoice>, max: nat, extra: seq<Buf>)
      requires Valid()
      modifies this, base, base.hq, base.hq.wrid, base.hq.wr, base.hq.ring, cq
      ensures Valid() && State() == StridePoll(base.Cfg(), Geo(), old(State()), es, max, extra)
      ensures waiting == old(waiting)
    {
      hide HwQueueRx.RingHolds, HwQueueRx.TableHolds, Layout, Protocol, StrideInv, Turns, CompensateFailed, Sound;
      var polled := TurnLoop(es, max);
      if polled == 0 {
        Pay(extra);
      }
    }

    method TurnLoop(es: seq<StrideChoice>, max: nat) returns (polled: nat)
      requires Valid()
      modifies this, base, base.hq, base.hq.wrid, base.hq.wr, base.hq.ring, cq
      ensures Valid() && (polled, State()) == Turns(base.Cfg(), Geo(), old(State()), es, max)
      ensures waiting == old(waiting)
    {
      hide HwQueueRx.RingHolds, HwQueueRx.TableHolds, Layout, Protocol, StrideInv, Turn, Sound;
      ghost var c, g, goal := base.Cfg(), Geo(), Turns(base.Cfg(), Geo(), State(), es, max);
      var i := 0;
      polled := 0;
      while i < |es| && polled < max
        invariant i <= |es| && polled <= max && Valid() && waiting == old(waiting)
        invariant goal.0 == Turns(c, g, State(), es[i..], max - polled).0 + polled
        invariant goal.1 == Turns(c, g, State(), es[i..], max - polled).1
      {
        assert es[i..][0] == es[i] && es[i..][1..] == es[i + 1..];
        var wqe, stride := TurnOnce(es[i]);
        if stride {
          polled := polled + 1;
        } else if !wqe {
          break;
        }
        i := i + 1;
      }
    }

    /** Offer the stride that has waited longest. */
    method ProcessFront(accept: bool)
      requires Valid() && Waits(out, waiting) && waiting != []
      modifies this`waiting, this`out, this`refs, this`cache, this`spare, base`rxPool, base`global, base`upper
      ensures Valid() && Waits(out, waiting) && Whole() == OfferFront(Geo(), old(Whole()), accept)
    {
      hide HwQueueRx.RingHolds, HwQueueRx.TableHolds, Layout, Protocol, StrideInv, Return, Waits;
      OfferFrontKeeps(base.Cfg(), Geo(), Whole(), accept);
      var i := IndexOf(out, waiting[0]);
      waiting := waiting[1..];
      if !accept && i < |out| {
        ReclaimStride(i, true);
      }
    }

    method ProcessRecvQueue(accepts: seq<bool>) returns (processed: nat)
      requires Valid() && Waits(out, waiting)
      modifies this`waiting, this`out, this`refs, this`cache, this`spare, base`rxPool, base`global, base`upper
      ensures Valid() && Waits(out, waiting) && processed <= |accepts|
      ensures (processed, Whole()) == ProcessWaiting(Geo(), old(Whole()), accepts)
    {
      hide HwQueueRx.RingHolds, HwQueueRx.TableHolds, Layout, Protocol, StrideInv, OfferFront, Waits, Sound;
      ghost var g, goal := Geo(), ProcessWaiting(Geo(), Whole(), accepts);
      processed := 0;
      while waiting != [] && processed < |accepts|
        invariant processed <= |accepts| && Valid() && Waits(out, waiting)
        invariant goal.0 == ProcessWaiting(g, Whole(), accepts[processed..]).0 + processed
        invariant goal.1 == ProcessWaiting(g, Whole(), accepts[processed..]).1
        decreases |accepts| - processed
      {
        assert accepts[processed..][0] == accepts[processed];
        assert accepts[processed..][1..] == accepts[processed + 1..];
        ProcessFront(accepts[processed]);
        processed := processed + 1;
      }
    }

    /** The strides that wait go up first; then completions are polled. */
    method PollAndProcessElementRx(accepts: seq<bool>, es: seq<StrideChoice>, max: nat, extra: seq<Buf>)
      requires Valid() && Waits(out, waiting)
      modifies this, base, base.hq, base.hq.wrid, base.hq.wr, base.hq.ring, cq
      ensures Valid() && Waits(out, waiting)
      ensures Whole() == QueuePoll(base.Cfg(), Geo(), old(Whole()), accepts, es, max, extra)
    {
      hide HwQueueRx.RingHolds, HwQueueRx.TableHolds, Layout, Protocol, StrideInv, ProcessWaiting, StridePoll, Waits, Sound;
      QueuePollKeeps(base.Cfg(), Geo(), Whole(), accepts, es, max, extra);
      ghost var goal := QueuePoll(base.Cfg(), Geo(), Whole(), accepts, es, max, extra);
      var processed := ProcessRecvQueue(accepts);
      if processed < |accepts| {
        PollElements(es, max, extra);
        assert Whole() == goal;
      }
    }

    /** One turn of the background drain: what is not TCP waits. */
    method DrainOnce(e: DrainChoice) returns (wqe: bool, stride: bool)
      requires Valid() && Waits(out, waiting)
      modifies this, base, base.hq, base.hq.wrid, base.hq.wr, base.hq.ring, cq
      ensures Valid() && Waits(out, waiting)
      ensures (Polled(wqe, stride), Whole()) == DrainTurn(base.Cfg(), Geo(), old(Whole()), e)
    {
      hide HwQueueRx.RingHolds, HwQueueRx.TableHolds, Layout, Protocol, StrideInv, Turn, Waits, Sound;
      DrainTurnKeeps(base.Cfg(), Geo(), Whole(), e);
      wqe, stride := TurnOnce(Deferred(e));
      if stride && !e.tcp && out != [] {
        waiting := waiting + [out[|out| - 1].desc];
      }
    }

    method DrainAndProcess(es: seq<DrainChoice>, max: nat)
      requires Valid() && Waits(out, waiting)
      modifies this, base, base.hq, base.hq.wrid, base.hq.wr, base.hq.ring, cq
      ensures Valid() && Waits(out, waiting)
      ensures Whole() == QueueDrain(base.Cfg(), Geo(), old(Whole()), es, max)
    {
      hide HwQueueRx.RingHolds, HwQueueRx.TableHolds, Layout, Protocol, StrideInv, DrainTurn, Waits, Sound;
      ghost var c, g, goal := base.Cfg(), Geo(), QueueDrain(base.Cfg(), Geo(), Whole(), es, max);
      var drained, i := 0, 0;
      while i < |es| && drained < max
        invariant i <= |es| && drained <= max && Valid() && Waits(out, waiting)
        invariant goal == QueueDrain(c, g, Whole(), es[i..], max - drained)
      {
        assert es[i..][0] == es[i] && es[i..][1..] == es[i + 1..];
        var wqe, stride := DrainOnce(es[i]);
        if stride {
          drained := drained + 1;
        } else if !wqe {
          break;
        }
        i := i + 1;
      }
    }

    /** One turn of emptying a queue that goes down. */
    method DownOnce(extra: seq<Buf>, recycle: bool) returns (wqe: bool, stride: bool)
      requires Valid() && Waits(out, waiting)
      modifies this, base, base.hq, base.hq.wrid, cq
      ensures Valid() && Waits(out, waiting)
      ensures (Polled(wqe, stride), Whole()) == DownTurn(Geo(), old(Whole()), extra, recycle)
    {
      hide HwQueueRx.RingHolds, HwQueueRx.TableHolds, Layout, Protocol, StrideInv, StridePath.Poll, Offer, Waits, Sound;
      DownTurnKeeps(base.Cfg(), Geo(), Whole(), extra, recycle);
      PollKeeps(base.Cfg(), Geo(), State(), extra);
      wqe, stride := PollStrides(extra);
      if recycle {
        if wqe {
          Owe();
        }
        if stride {
          OfferLast(false);
        }
      } else if stride && out != [] {
        waiting := waiting + [out[|out| - 1].desc];
      }
    }

    method Owe()
      requires Valid() && Owed(State().rx) < base.hq.num
      modifies base`debt
      ensures Valid() && State() == old(State()).(rx := old(State()).rx.(debt := old(base.debt) + 1))
    {
      hide HwQueueRx.RingHolds, HwQueueRx.TableHolds, Layout, Protocol, StrideInv;
      OweKeeps(base.Cfg(), Geo(), State());
      base.debt := base.debt + 1;
    }

    /** Empty the queue when it goes down: clean it, or recycle what it holds. */
    method TakeDown(extras: seq<seq<Buf>>, recycle: bool)
      requires Valid() && Waits(out, waiting)
      modifies this, base, base.hq, base.hq.wrid, cq
      ensures Valid() && Waits(out, waiting)
      ensures Whole() == GoDown(Geo(), old(Whole()), extras, recycle).1
    {
      hide HwQueueRx.RingHolds, HwQueueRx.TableHolds, Layout, Protocol, StrideInv, DownTurn, Waits, Sound;
      ghost var g, goal := Geo(), GoDown(Geo(), Whole(), extras, recycle).1;
      var i := 0;
      while i < |extras|
        invariant i <= |extras| && Valid() && Waits(out, waiting)
        invariant goal == GoDown(g, Whole(), extras[i..], recycle).1
      {
        assert extras[i..][0] == extras[i] && extras[i..][1..] == extras[i + 1..];
        var wqe, stride := DownOnce(extras[i], recycle);
        if !wqe && !stride {
          break;
        }
        i := i + 1;
      }
    }

    /** The upper layer returns a stride it holds. */
    method GiveBackStride(i: nat, viaQueue: bool)
      requires Valid() && Waits(out, waiting)
      modifies this`out, this`refs, this`cache, this`spare, base`rxPool, base`global, base`upper
      ensures Valid() && Waits(out, waiting) && Whole() == QueueReturn(Geo(), old(Whole()), i, viaQueue)
    {
      hide HwQueueRx.RingHolds, HwQueueRx.TableHolds, Layout, Protocol, StrideInv, Return, Waits;
      QueueReturnKeeps(base.Cfg(), Geo(), Whole(), i, viaQueue);
      if i < |out| && out[i].desc !in waiting {
        ReclaimStride(i, viaQueue);
      }
    }

    /** Surplus buffers go back to the global pool. */
    method ReturnSpare()
      requires Valid()
      modifies base`rxPool, base`global
      ensures Valid() && State() == old(State()).(rx := ReturnExtra(base.Cfg(), old(State()).rx))
    {
      hide HwQueueRx.RingHolds, HwQueueRx.TableHolds, Layout, Protocol, StrideInv, ReturnExtra;
      ReturnSpareKeeps(base.Cfg(), Geo(), State());
      base.ReturnExtraBuffers([]);
    }

    /** One operation, by whoever performs it. */
    method Perform(op: StrideOp)
      requires Valid() && Waits(out, waiting) && Possible(Geo(), State(), op)
      modifies this, base, base.hq, base.hq.wrid, base.hq.wr, base.hq.ring, cq, cq.ring
      ensures Valid() && Waits(out, waiting) && Whole() == StrideStep(base.Cfg(), Geo(), old(Whole()), op)
    {
      hide HwQueueRx.RingHolds, HwQueueRx.TableHolds, Layout, Protocol, StrideInv, Waits, Sound;
      hide HwCut, QueuePoll, QueueDrain, GoDown, QueueReturn, ReturnExtra, Fits;
      StrideStepKeeps(base.Cfg(), Geo(), Whole(), op);
      match op {
        case OpCut(k, filler) => HwCompleteStrides(k, filler, 0);
        case OpPoll(accepts, es, max, extra) => PollAndProcessElementRx(accepts, es, max, extra);
        case OpDrain(ds, max) => DrainAndProcess(ds, max);
        case OpDown(extras, recycle) => TakeDown(extras, recycle);
        case OpReturn(i, viaQueue) => GiveBackStride(i, viaQueue);
        case OpReturnSpare => ReturnSpare();
      }
    }

    /** Any sequence of operations takes the queue through the run of the striding path, with all it keeps. */
    method RunOps(ops: seq<StrideOp>)
      requires Valid() && Waits(out, waiting) && Feasible(base.Cfg(), Geo(), Whole(), ops)
      modifies this, base, base.hq, base.hq.wrid, base.hq.wr, base.hq.ring, cq, cq.ring
      ensures Valid() && Waits(out, waiting) && Whole() == StrideRun(base.Cfg(), Geo(), old(Whole()), ops)
    {
      hide HwQueueRx.RingHolds, HwQueueRx.TableHolds, Layout, Protocol, StrideInv, StrideStep, Possible, Waits, Sound;
      ghost var c, g, s := base.Cfg(), Geo(), Whole();
      for i := 0 to |ops|
        invariant Valid() && Waits(out, waiting) && Feasible(c, g, Whole(), ops[i..])
        invariant StrideRun(c, g, s, ops) == StrideRun(c, g, Whole(), ops[i..])
      {
        assert ops[i..][0] == ops[i] && ops[i..][1..] == ops[i + 1..];
        Perform(ops[i]);
      }
    }
  }

  /** The hardware fills only what it was given, and counts strides in fourteen bits. */
  ghost predicate Possible(g: Geometry, s: Strq, op: StrideOp)
  {
    op.OpCut? ==> op.k < 0x4000 && Fits(g.strides, s.done, s.cuts + [Cut(op.k, op.filler)], |s.rx.posted|)
  }

  ghost predicate Feasible(c: Config, g: Geometry, s: Sq, ops: seq<StrideOp>)
    decreases |ops|
  {
    ops == [] || (Possible(g, s.q, ops[0]) && Feasible(c, g, StrideStep(c, g, s, ops[0]), ops[1..]))
  }

  /** With no stride handed out only the ring and the descriptors matter. */
  lemma NothingOut(c: Config, g: Geometry, rx: Rx, spare: seq<Buf>)
    requires g.strides >= 1 && ReceivePath.Inv(c, rx) && rx.upper == multiset{} && rx.queue == [] && rx.ready == [] && !rx.hot
    requires 0 !in spare && multiset(Elements(spare)) == multiset(spare)
    ensures StrideInv(c, g, Strq(rx, map[], 0, [], [], [], spare, 0, Elements(spare)))
  {
    hide InvWith;
  }

  /** Nothing is consumed of a ring that is empty. */
  lemma Unstarted(c: Config, g: Geometry, s: Strq)
    requires StrideInv(c, g, s) && Owed(s.rx) == 0
    ensures s.done == 0
  {
  }

  /** A buffer whose count runs out is off the ring. */
  lemma LastIsHeld(c: Config, g: Geometry, s: Strq, i: nat)
    requires StrideInv(c, g, s) && i < |s.out|
    ensures s.out[i].k == RefOf(s.refs, s.out[i].rwqe) ==> s.out[i].rwqe in s.rx.upper
    ensures s.out[i].rwqe != 0
  {
    ReturnRecyclesExactly(c, g, s, i);
    assert Placed(g, s, s.out[i]);
    if IsHot(s, s.out[i].rwqe) {
      PostedNotHeld(c, s.rx);
    } else {
      assert s.out[i].rwqe in OffRing(s.rx) + multiset{} + OnRing(s.rx);
    }
  }

  lemma RoomLeft(strides: nat, done: nat, cuts: seq<Cut>, n: nat, num: nat)
    requires Fits(strides, done, cuts, n) && done < strides && n <= num && cuts != []
    ensures |cuts| <= strides * num
  {
    CompletionsBounded(strides, done, cuts, n);
    assert strides * (num - n) >= 0;
  }

  lemma FieldsOf(k: nat, filler: bool, bytes: nat)
    requires k < 0x4000 && bytes < 0x1_0000
    ensures var byteCnt := bytes + k * 0x1_0000 + (if filler then 0x8000_0000 else 0);
            StridesOf(byteCnt) == k && (IsFiller(byteCnt) <==> filler)
  {
  }
}
