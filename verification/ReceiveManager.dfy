/**
 The manager of one receive queue: it refills the ring from its pool, borrows
 from and returns to the global pool, and takes buffers back from the upper
 layer.  Every method is tied to the function of module ReceivePath that it
 computes; `hand` and `ready` stand for what the caller holds and for the
 completions that wait while the method runs.
 */
module ReceiveManager {
  import opened Buffers
  import opened ReceivePath
  import opened ReceiveQueue

  /** What a running operation relies on: credit for every entry it owes, and no null buffers. */
  ghost predicate Sound(c: Config, s: Rx)
  {
    && 0 <= s.debt && Owed(s) <= c.num
    && 0 !in s.pool && 0 !in s.queue && 0 !in s.global
  }

  /** All of it follows from the invariant of the receive path, and the upper layer holds no null either. */
  lemma InvIsSound(c: Config, s: Rx, hand: multiset<Buf>)
    requires InvWith(c, s, hand)
    ensures Sound(c, s) && 0 !in s.upper && 0 !in hand
  {
    var all := OffRing(s) + hand + OnRing(s);
    assert all[0] == multiset(s.created)[0] == 0;
    MemberCount(s.pool, 0);
    MemberCount(s.queue, 0);
    MemberCount(s.global, 0);
  }

  class CqMgrRx {
    const hq: HwQueueRx
    const level: nat              // refill size
    const keepFull: bool
    var rxPool: seq<Buf>
    var rxQueue: seq<Buf>
    var debt: int
    var hot: Buf                  // descriptor of the ring entry being received into
    var global: seq<Buf>          // free list of the global pool
    var upper: multiset<Buf>      // held by the upper layer
    var created: set<Buf>         // every buffer the global pool has made

    ghost function Cfg(): Config
      reads this
    {
      Config(hq.num, hq.batch, level, keepFull)
    }

    ghost predicate Counters()
      reads this, hq
    {
      hq.polled + hq.curr <= |hq.log|
    }

    ghost function State(ready: seq<bool>): Rx
      reads this, hq
      requires Counters()
    {
      Rx(global, rxPool, rxQueue, hq.Pending(), hq.Posted(), hq.hot, upper, debt, ready, created)
    }

    ghost predicate Valid()
      reads this, hq, hq.wrid, hq.wr, hq.ring
    {
      && hq.Valid()
      && Sound(Cfg(), State([]))
      && hot == (if hq.hot then hq.Posted()[0] else 0)
    }

    constructor (hq: HwQueueRx, level: nat, keepFull: bool, global: seq<Buf>)
      requires hq.Valid() && hq.log == [] && !hq.hot
      requires Admissible(global, {})
      ensures this.hq == hq && this.level == level && this.keepFull == keepFull
      ensures Valid() && State([]) == Empty(global)
    {
      hide HwQueueRx.RingHolds, HwQueueRx.TableHolds;
      this.hq := hq;
      this.level := level;
      this.keepFull := keepFull;
      rxPool, rxQueue, debt, hot := [], [], 0, 0;
      this.global := global;
      upper, created := multiset{}, Elements(global);
    }

    /** Hand one buffer to the queue. */
    method PostOne(b: Buf, ghost ready: seq<bool>)
      requires hq.Valid() && b != 0 && |hq.Posted()| + |hq.Pending()| < hq.num
      modifies hq`curr, hq`counter, hq`head, hq`log, hq.wrid, hq.wr, hq.ring
      ensures hq.Valid() && State(ready) == Post(Cfg(), old(State(ready)), b)
      ensures |hq.Posted()| + |hq.Pending()| == old(|hq.Posted()| + |hq.Pending()|) + 1
      ensures |hq.Posted()| >= |old(hq.Posted())|
      ensures hq.hot ==> hq.Posted()[0] == old(hq.Posted()[0])
      ensures old(hq.log) <= hq.log
    {
      hide HwQueueRx.RingHolds, HwQueueRx.TableHolds;
      hq.PostRecvBuffer(b);
    }

    /** Hand a list of buffers to the queue, first one first. */
    method PostRecvBuffers(bs: seq<Buf>, ghost ready: seq<bool>)
      requires hq.Valid() && 0 !in bs && |hq.Posted()| + |hq.Pending()| + |bs| <= hq.num
      modifies hq`curr, hq`counter, hq`head, hq`log, hq.wrid, hq.wr, hq.ring
      ensures hq.Valid() && State(ready) == PostList(Cfg(), old(State(ready)), bs)
      ensures |hq.Posted()| + |hq.Pending()| == old(|hq.Posted()| + |hq.Pending()|) + |bs|
      ensures |hq.Posted()| >= |old(hq.Posted())|
      ensures hq.hot ==> hq.Posted()[0] == old(hq.Posted()[0])
      ensures old(hq.log) <= hq.log
    {
      hide HwQueueRx.RingHolds, HwQueueRx.TableHolds;
      ghost var goal := PostList(Cfg(), State(ready), bs);
      for i := 0 to |bs|
        invariant hq.Valid() && |hq.Posted()| + |hq.Pending()| == old(|hq.Posted()| + |hq.Pending()|) + i
        invariant |hq.Posted()| >= |old(hq.Posted())| && old(hq.log) <= hq.log
        invariant goal == PostList(Cfg(), State(ready), bs[i..])
        invariant hq.hot ==> hq.Posted()[0] == old(hq.Posted()[0])
      {
        assert bs[i..][0] == bs[i] && bs[i..][1..] == bs[i + 1..];
        PostOne(bs[i], ready);
      }
    }

    /** All or nothing from the global pool; `extra` is what the pool creates if it runs short. */
    method GetBuffers(count: nat, extra: seq<Buf>, ghost ready: seq<bool>)
      returns (got: Got)
      requires Valid()
      modifies this`global, this`created
      ensures Valid() && (got, State(ready)) == GlobalGet(old(State(ready)), count, extra)
      ensures got.Granted? ==> |got.taken| == count && 0 !in got.taken
    {
      hide HwQueueRx.RingHolds, HwQueueRx.TableHolds;
      if |global| < count && Admissible(extra, created) {
        global, created := extra + global, created + Elements(extra);
      }
      got := Take(global, count);
      global := got.free;
    }
  
    method RequestMoreBuffers(extra: seq<Buf>, ghost ready: seq<bool>)
      returns (ok: bool)
      requires Valid()
      modifies this`global, this`created, this`rxPool
      ensures Valid() && (ok, State(ready)) == RequestMore(Cfg(), old(State(ready)), extra)
    {
      hide HwQueueRx.RingHolds, HwQueueRx.TableHolds;
      var got := GetBuffers(level, extra, ready);
      ok := got.Granted?;
      if ok {
        rxPool := rxPool + got.taken;
      }
    }

    /** Post from the pool as much as debt and pool allow. */
    method Pay(ghost ready: seq<bool>)
      requires Valid()
      modifies this`rxPool, this`debt, hq`curr, hq`counter, hq`head, hq`log, hq.wrid, hq.wr, hq.ring
      ensures Valid() && State(ready) == PayDebt(Cfg(), old(State(ready)))
      ensures |hq.Posted()| >= |old(hq.Posted())|
      ensures old(hq.log) <= hq.log
    {
      hide HwQueueRx.RingHolds, HwQueueRx.TableHolds;
      ghost var s := State(ready);
      var buffers := if 0 <= debt < |rxPool| then debt else |rxPool|;
      var front := rxPool[..buffers];
      rxPool := rxPool[buffers..];
      debt := debt - buffers;
      assert State(ready) == s.(pool := s.pool[buffers..], debt := s.debt - buffers);
      PostRecvBuffers(front, ready);
    }

    method TryCompensate(extra: seq<Buf>, ghost ready: seq<bool>)
      returns (done: bool)
      requires Valid()
      modifies this`rxPool, this`debt, this`global, this`created, hq`curr, hq`counter, hq`head, hq`log, hq.wrid, hq.wr, hq.ring
      ensures Valid() && (done, State(ready)) == Compensate(Cfg(), old(State(ready)), extra)
      ensures |hq.Posted()| >= |old(hq.Posted())|
      ensures old(hq.log) <= hq.log
    {
      hide HwQueueRx.RingHolds, HwQueueRx.TableHolds;
      done := rxPool != [];
      if !done {
        done := RequestMoreBuffers(extra, ready);
      }
      if done {
        Pay(ready);
      }
    }

    method CompensateQpPollFailed(extra: seq<Buf>, ghost ready: seq<bool>)
      requires Valid()
      modifies this`rxPool, this`debt, this`global, this`created, hq`curr, hq`counter, hq`head, hq`log, hq.wrid, hq.wr, hq.ring
      ensures Valid()
      ensures State(ready) == CompensateFailed(Cfg(), old(State(ready)), extra)
      ensures |hq.Posted()| >= |old(hq.Posted())|
      ensures old(hq.log) <= hq.log
    {
      hide HwQueueRx.RingHolds, HwQueueRx.TableHolds;
      if debt != 0 {
        var _ := TryCompensate(extra, ready);
      }
    }

    /** Returns true if the given buffer was used for the ring. */
    method CompensateQpPollSuccess(b: Buf, extra: seq<Buf>, ghost ready: seq<bool>)
      returns (used: bool)
      requires Valid() && b != 0 && debt >= 1
      modifies this`rxPool, this`debt, this`global, this`created, hq`curr, hq`counter, hq`head, hq`log, hq.wrid, hq.wr, hq.ring
      ensures Valid()
      ensures (used, State(ready)) == CompensateSuccess(Cfg(), old(State(ready)), b, extra)
      ensures |hq.Posted()| >= |old(hq.Posted())|
      ensures old(hq.log) <= hq.log
    {
      hide HwQueueRx.RingHolds, HwQueueRx.TableHolds;
      var done := TryCompensate(extra, ready);
      used := !done && (keepFull || debt >= hq.num);
      if used {
        Repost(b, ready);
      }
    }

    /** A received buffer goes straight back to the ring and its packet is dropped. */
    method Repost(b: Buf, ghost ready: seq<bool>)
      requires Valid() && b != 0 && debt >= 1
      modifies this`debt, hq`curr, hq`counter, hq`head, hq`log, hq.wrid, hq.wr, hq.ring
      ensures Valid()
      ensures State(ready) == Post(Cfg(), old(State(ready)), b).(debt := old(debt) - 1)
      ensures |hq.Posted()| >= |old(hq.Posted())|
      ensures old(hq.log) <= hq.log
    {
      hide HwQueueRx.RingHolds, HwQueueRx.TableHolds;
      PostOne(b, ready);
      debt := debt - 1;
    }

    /** Enter a consumed ring entry as debt, and compensate once a batch is due. */
    method Charge(b: Buf, e: Choice, ghost ready: seq<bool>) returns (used: bool)
      requires Valid() && b != 0 && Owed(State(ready)) < hq.num
      modifies this`rxPool, this`debt, this`global, this`created, hq`curr, hq`counter, hq`head, hq`log, hq.wrid, hq.wr, hq.ring
      ensures Valid()
      ensures (used, State(ready)) == Settle(Cfg(), old(State(ready)), b, e)
      ensures |hq.Posted()| >= |old(hq.Posted())|
      ensures old(hq.log) <= hq.log
    {
      hide HwQueueRx.RingHolds, HwQueueRx.TableHolds;
      debt := debt + 1;
      used := false;
      if debt >= hq.batch {
        used := CompensateQpPollSuccess(b, e.extra, ready);
      }
    }

    method ReturnExtraBuffers(ghost ready: seq<bool>)
      requires Valid()
      modifies this`rxPool, this`global
      ensures Valid() && State(ready) == ReturnExtra(Cfg(), old(State(ready)))
    {
      hide HwQueueRx.RingHolds, HwQueueRx.TableHolds;
      if |rxPool| < level * 2 {
        return;
      }
      global := rxPool[level..] + global;
      rxPool := rxPool[..level];
    }
  
    method FillBatch(n: nat, extra: seq<Buf>, ghost ready: seq<bool>) returns (granted: bool)
      requires Valid() && debt == 0 && |hq.Posted()| + |hq.Pending()| + n <= hq.num
      modifies this`global, this`created, hq`curr, hq`counter, hq`head, hq`log, hq.wrid, hq.wr, hq.ring
      ensures Valid()
      ensures var (got, s1) := GlobalGet(old(State(ready)), n, extra);
              && granted == got.Granted?
              && State(ready) == if granted then PostList(Cfg(), s1, got.taken) else s1
      ensures |hq.Posted()| + |hq.Pending()| ==
              old(|hq.Posted()| + |hq.Pending()|) + (if granted then n else 0)
      ensures old(hq.log) <= hq.log
    {
      hide HwQueueRx.RingHolds, HwQueueRx.TableHolds;
      var got := GetBuffers(n, extra, ready);
      granted := got.Granted?;
      if granted {
        PostRecvBuffers(got.taken, ready);
      }
    }

    /** The initial fill: batches from the global pool until the ring is full or the pool refuses. */
    method AddHqrx(extras: seq<seq<Buf>>, ghost ready: seq<bool>)
      requires Valid() && Owed(State(ready)) == 0
      modifies this`debt, this`global, this`created,
               hq`curr, hq`counter, hq`head, hq`log, hq.wrid, hq.wr, hq.ring
      ensures Valid() && State(ready) == Fill(Cfg(), old(State(ready)), hq.num, extras)
      ensures old(hq.log) <= hq.log
    {
      hide HwQueueRx.RingHolds, HwQueueRx.TableHolds, Fill;
      FillRing(extras, ready);
      debt := 0;
    }

    method FillRing(extras: seq<seq<Buf>>, ghost ready: seq<bool>)
      requires Valid() && Owed(State(ready)) == 0
      modifies this`global, this`created, hq`curr, hq`counter, hq`head, hq`log, hq.wrid, hq.wr, hq.ring
      ensures Valid() && State(ready) == Fill(Cfg(), old(State(ready)), hq.num, extras)
      ensures old(hq.log) <= hq.log
    {
      hide HwQueueRx.RingHolds, HwQueueRx.TableHolds, PostList, Sound;
      assert debt == 0 && |hq.Posted()| + |hq.Pending()| == 0 by { SoundOwes(ready); }
      ghost var c, goal := Cfg(), Fill(Cfg(), State(ready), hq.num, extras);
      var left: nat, k := hq.num, 0;
      while left > 0
        invariant Valid() && debt == 0 && |hq.Posted()| + |hq.Pending()| + left <= hq.num && k <= |extras|
        invariant goal == Fill(c, State(ready), left, extras[k..])
        invariant old(hq.log) <= hq.log
      {
        var n := if hq.batch > left then left else hq.batch;
        var extra := if k == |extras| then [] else extras[k];
        assert extra == if extras[k..] == [] then [] else extras[k..][0];
        assert k < |extras| ==> extras[k..][1..] == extras[k + 1..];
        var granted := FillBatch(n, extra, ready);
        if !granted {
          break;
        }
        left := left - n;
        k := if k == |extras| then k else k + 1;
      }
    }

    lemma SoundOwes(ready: seq<bool>)
      requires Valid() && Owed(State(ready)) == 0
      ensures debt == 0
    {
    }

    /** Look up the descriptor behind the oldest ring entry, once. */
    method SetHotBuffer(ghost ready: seq<bool>)
      requires Valid()
      modifies this`hot, hq`hot, hq.wrid
      ensures Valid() && State(ready) == old(State(ready)).(hot := hq.Posted() != [])
      ensures hot == if hq.Posted() == [] then 0 else hq.Posted()[0]
    {
      hide HwQueueRx.RingHolds, HwQueueRx.TableHolds;
      if hot == 0 {
        hot := hq.TakeHot();
      }
    }

    /** The oldest ring entry is complete: its buffer leaves the ring. */
    method RetireHotBuffer(ghost ready: seq<bool>) returns (b: Buf)
      requires Valid() && hot != 0
      modifies this`hot, hq`hot, hq`tail, hq`polled
      ensures Valid() && b == old(hq.Posted())[0] && b != 0
      ensures State(ready) == old(State(ready)).(posted := old(hq.Posted())[1..], hot := false)
    {
      hide HwQueueRx.RingHolds, HwQueueRx.TableHolds;
      b := hot;
      ghost var posted := hq.Posted();
      hq.Retire();
      assert hq.Posted() == posted[1..];
      hot := 0;
    }

    /** Put a chain of buffers back: into this queue's pool, or a foreign one into the global pool. */
    method Recycle(chain: seq<Buf>, mine: bool, ghost ready: seq<bool>)
      requires Valid() && 0 !in chain
      modifies this`rxPool, this`global
      ensures Valid()
      ensures State(ready) == if mine then old(State(ready)).(pool := old(rxPool) + chain)
                              else old(State(ready)).(global := Reversed(chain) + old(global))
    {
      hide HwQueueRx.RingHolds, HwQueueRx.TableHolds;
      if mine {
        RecycleOwn(chain);
      } else {
        RecycleForeign(chain);
      }
    }

    method RecycleOwn(chain: seq<Buf>)
      modifies this`rxPool
      ensures rxPool == old(rxPool) + chain
    {
      hide HwQueueRx.RingHolds, HwQueueRx.TableHolds;
      for i := 0 to |chain|
        invariant rxPool == old(rxPool) + chain[..i]
      {
        rxPool := rxPool + [chain[i]];
      }
      assert chain[..|chain|] == chain;
    }

    method RecycleForeign(chain: seq<Buf>)
      modifies this`global
      ensures global == Reversed(chain) + old(global)
      ensures 0 !in chain && 0 !in old(global) ==> 0 !in global
    {
      hide HwQueueRx.RingHolds, HwQueueRx.TableHolds;
      for i := 0 to |chain|
        invariant global == Reversed(chain[..i]) + old(global)
      {
        ReversedSnoc(chain[..i], chain[i]);
        assert chain[..i + 1] == chain[..i] + [chain[i]];
        global := [chain[i]] + global;
      }
      assert chain[..|chain|] == chain;
      ReversedContents(chain);
      assert 0 in Reversed(chain) <==> 0 in multiset(Reversed(chain));
    }

    /** Offer a buffer to the upper layer; a refused one is recycled. */
    method ProcessRecvBuffer(b: Buf, accept: bool, ghost ready: seq<bool>)
      requires Valid() && b != 0
      modifies this`rxPool, this`global, this`upper
      ensures Valid() && State(ready) == Deliver(old(State(ready)), b, accept)
    {
      hide HwQueueRx.RingHolds, HwQueueRx.TableHolds;
      if accept {
        upper := upper + multiset{b};
      } else {
        Recycle([b], true, ready);
      }
    }

    /** Offer the buffer that has waited longest. */
    method ProcessFront(accept: bool, ghost ready: seq<bool>)
      requires Valid() && rxQueue != []
      modifies this`rxPool, this`rxQueue, this`global, this`upper
      ensures Valid()
      ensures var s := old(State(ready));
              State(ready) == Deliver(s.(queue := s.queue[1..]), s.queue[0], accept)
    {
      hide HwQueueRx.RingHolds, HwQueueRx.TableHolds;
      var b := rxQueue[0];
      rxQueue := rxQueue[1..];
      ProcessRecvBuffer(b, accept, ready);
    }

    /** Keep a buffer waiting in the queue, or recycle it. */
    method SetAside(b: Buf, keep: bool, ghost ready: seq<bool>)
      requires Valid() && b != 0
      modifies this`rxPool, this`rxQueue, this`global
      ensures Valid()
      ensures var s := old(State(ready));
              State(ready) == if keep then s.(queue := s.queue + [b]) else s.(pool := s.pool + [b])
    {
      hide HwQueueRx.RingHolds, HwQueueRx.TableHolds;
      if keep {
        rxQueue := rxQueue + [b];
      } else {
        Recycle([b], true, ready);
      }
    }

    /** One completion of the polling loop. */
    method HandleReceived(b: Buf, ok: bool, e: Choice, ghost ready: seq<bool>)
      requires Valid() && b != 0 && Owed(State(ready)) < hq.num
      modifies this`rxPool, this`rxQueue, this`debt, this`global, this`created, this`upper,
               hq`curr, hq`counter, hq`head, hq`log, hq.wrid, hq.wr, hq.ring
      ensures Valid() && State(ready) == Handle(Cfg(), old(State(ready)), b, ok, e)
      ensures |hq.Posted()| >= |old(hq.Posted())|
      ensures old(hq.log) <= hq.log
    {
      hide HwQueueRx.RingHolds, HwQueueRx.TableHolds;
      if ok {
        var used := Charge(b, e, ready);
        if !used {
          ProcessRecvBuffer(b, e.accept, ready);
        }
      } else {
        Recycle([b], true, ready);
        debt := debt + 1;
        if debt >= hq.batch {
          CompensateQpPollFailed(e.extra, ready);
        }
      }
    }

    /** One completion of the background drain. */
    method HandleDrainedOne(b: Buf, ok: bool, e: Choice, ghost ready: seq<bool>)
      requires Valid() && b != 0 && Owed(State(ready)) < hq.num
      modifies this`rxPool, this`rxQueue, this`debt, this`global, this`created, this`upper,
               hq`curr, hq`counter, hq`head, hq`log, hq.wrid, hq.wr, hq.ring
      ensures Valid() && State(ready) == HandleDrained(Cfg(), old(State(ready)), b, ok, e)
      ensures |hq.Posted()| >= |old(hq.Posted())|
      ensures old(hq.log) <= hq.log
    {
      hide HwQueueRx.RingHolds, HwQueueRx.TableHolds;
      if !ok {
        Recycle([b], true, ready);
      } else if e.tcp {
        var used := Charge(b, e, ready);
        if !used {
          ProcessRecvBuffer(b, e.accept, ready);
        }
      } else {
        rxQueue := rxQueue + [b];
        var cur := rxQueue[0];
        rxQueue := rxQueue[1..];
        var used := Charge(cur, e, ready);
        if !used {
          rxQueue := [cur] + rxQueue;
        }
      }
    }

    /**
     The upper layer drops one reference to a chain of buffers.  The chain is recycled by the call
     that drops the last one, and only then.
     */
    method ReclaimRecvBuffer(chain: seq<Buf>, mine: bool, counts: Refs, ghost ready: seq<bool>)
      returns (left: Refs)
      requires Valid() && chain != [] && 0 !in chain && multiset(chain) <= upper
      requires counts.pbuf < 0x1_0000
      modifies this`rxPool, this`global, this`upper
      ensures Valid() && left == Release(counts)
      ensures State(ready) == if IsLast(counts) then Reclaim(old(State(ready)), chain, mine)
                              else old(State(ready))
    {
      hide HwQueueRx.RingHolds, HwQueueRx.TableHolds;
      left := counts.(n := counts.n - 1);
      if counts.n <= 1 {
        left := left.(pbuf := (counts.pbuf - 1) % 0x1_0000);
        if counts.pbuf <= 1 {
          upper := upper - multiset(chain);
          Recycle(chain, mine, ready);
          left := Refs(0, 0);
        }
      }
    }
  }

  /** The two reference counts of a buffer. */
  datatype Refs = Refs(n: int, pbuf: nat)

  predicate IsLast(r: Refs)
  {
    r.n <= 1 && r.pbuf <= 1
  }

  /** Dropping a reference; the second count is looked at only when the first has run out. */
  function Release(r: Refs): Refs
  {
    if IsLast(r) then Refs(0, 0)
    else if r.n <= 1 then Refs(r.n - 1, r.pbuf - 1)
    else Refs(r.n - 1, r.pbuf)
  }

  function Releases(r: Refs, k: nat): Refs
  {
    if k == 0 then r else Release(Releases(r, k - 1))
  }

  /** How many releases come before the one that recycles. */
  function Spare(r: Refs): nat
  {
    (if r.n > 1 then r.n - 1 else 0) + (if r.pbuf > 1 then r.pbuf - 1 else 0)
  }

  /** Whatever the two counts are, exactly one release recycles: the one after both have run down to one. */
  lemma {:induction false} LastReleaseRecycles(r: Refs, j: nat)
    requires j <= Spare(r)
    ensures IsLast(Releases(r, j)) <==> j == Spare(r)
    ensures Spare(Releases(r, j)) == Spare(r) - j
  {
    if j > 0 { LastReleaseRecycles(r, j - 1); }
  }
}
