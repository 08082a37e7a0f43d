/**
 The receive manager of a regular queue: one completion per ring entry.  The
 methods are the polling loops; each is tied to the function of module
 ReceivePath it computes, and `RunOps` carries the theorems of that module over
 to every run of them.
 */
module RegularReceive {
  import opened Buffers
  import opened ReceivePath
  import opened ReceiveQueue
  import opened ReceiveManager
  import opened CompletionQueue

  /** Opcodes of a received packet: plain, with immediate data, with invalidation. */
  predicate IsSuccess(e: Cqe)
  {
    2 <= Opcode(e) <= 4
  }

  function Statuses(es: seq<Cqe>): (r: seq<bool>)
    ensures |r| == |es|
  {
    if es == [] then [] else [IsSuccess(es[0])] + Statuses(es[1..])
  }

  lemma {:induction false} StatusesSnoc(es: seq<Cqe>, e: Cqe)
    ensures Statuses(es + [e]) == Statuses(es) + [IsSuccess(e)]
  {
    if es != [] {
      StatusesSnoc(es[1..], e);
      assert (es + [e])[1..] == es[1..] + [e];
    }
  }

  class CqMgrRxRegrq {
    const base: CqMgrRx
    const cq: CompletionRing
    ghost var got: seq<Buf>       // every buffer polled, in order

    ghost predicate Valid()
      reads this, base, base.hq, base.hq.wrid, base.hq.wr, base.hq.ring, cq, cq.ring
    {
      && base.Valid() && cq.Valid()
      && base.hq.num <= cq.count
      && |cq.Ready()| <= |base.hq.Posted()|
      && got == base.hq.log[..base.hq.polled]
    }

    ghost function Ready(): seq<bool>
      reads this, cq
      requires cq.taken <= |cq.written|
    {
      Statuses(cq.Ready())
    }

    ghost function State(): Rx
      reads this, base, base.hq, cq
      requires base.Counters() && cq.taken <= |cq.written|
    {
      base.State(Ready())
    }

    /** The ring and its completion queue are created with the same size. */
    constructor (shift: nat, batch: nat, level: nat, keepFull: bool, global: seq<Buf>)
      requires shift <= 30 && batch >= 1
      requires Admissible(global, {})
      ensures Valid() && State() == Empty(global)
      ensures fresh(base) && fresh(base.hq) && fresh(cq)
      ensures fresh(base.hq.wrid) && fresh(base.hq.wr) && fresh(base.hq.ring) && fresh(cq.ring)
      ensures base.Cfg() == Config(base.hq.num, batch, level, keepFull) && Inv(base.Cfg(), State())
    {
      hide HwQueueRx.RingHolds, HwQueueRx.TableHolds, Layout, Protocol;
      var hq := new HwQueueRx(shift, batch);
      base := new CqMgrRx(hq, level, keepFull, global);
      cq := new CompletionRing(shift);
      got := [];
      new;
      EmptyIsSound(base.Cfg(), global);
    }

    /** The initial fill of an empty ring. */
    method Start(extras: seq<seq<Buf>>)
      requires Valid() && Inv(base.Cfg(), State()) && Owed(State()) == 0
      modifies base, base.hq, base.hq.wrid, base.hq.wr, base.hq.ring
      ensures Valid() && Inv(base.Cfg(), State())
      ensures State() == Fill(base.Cfg(), old(State()), base.hq.num, extras)
    {
      hide HwQueueRx.RingHolds, HwQueueRx.TableHolds, Layout, Protocol, InvWith;
      FillKeeps(base.Cfg(), State(), base.hq.num, extras);
      base.AddHqrx(extras, Ready());
    }

    /**
     The hardware completes the oldest open ring entry.  It never looks for room in the completion
     queue; there always is some.
     */
    method HwComplete(opcode: nat, byteCnt: nat)
      requires Valid() && opcode != CQE_INVALID && |cq.Ready()| < |base.hq.Posted()|
      modifies cq, cq.ring
      ensures Valid() && State() == Complete(old(State()), 2 <= opcode <= 4)
    {
      hide HwQueueRx.RingHolds, HwQueueRx.TableHolds, Layout, Protocol;
      ghost var before := cq.Ready();
      cq.Produce(opcode, 0, byteCnt);
      ghost var e := cq.written[|cq.written| - 1];
      assert cq.Ready() == before + [e];
      StatusesSnoc(before, e);
    }

    /** Take the buffer of the oldest ring entry if it is complete; null if nothing is. */
    method Poll() returns (b: Buf, ok: bool)
      requires Valid()
      modifies this`got, base, base.hq, base.hq.wrid, cq
      ensures Valid() && (b, ok, State()) == PollOne(old(State()))
      ensures b == 0 <==> old(Ready()) == []
      ensures base.hq.log == old(base.hq.log) && got == old(got) + if b == 0 then [] else [b]
    {
      hide HwQueueRx.RingHolds, HwQueueRx.TableHolds, Layout, Protocol;
      b, ok := 0, false;
      base.SetHotBuffer(Ready());
      if base.hot == 0 {
        return;
      }
      var cqe := cq.Check();
      if cqe.Some? {
        b := TakeCompleted();
        ok := IsSuccess(cqe.value);
      }
    }

    /** The buffer of a completed entry leaves the ring, and the completion is consumed. */
    method TakeCompleted() returns (b: Buf)
      requires Valid() && base.hot != 0 && cq.Ready() != []
      modifies this`got, base`hot, base.hq`hot, base.hq`tail, base.hq`polled, cq`ci, cq`taken
      ensures Valid() && b == old(base.hq.Posted())[0] && b != 0
      ensures var s := old(State());
              State() == s.(posted := s.posted[1..], ready := s.ready[1..], hot := false)
      ensures base.hq.log == old(base.hq.log) && got == old(got) + [b]
    {
      hide HwQueueRx.RingHolds, HwQueueRx.TableHolds, Layout, Protocol, Sound;
      b := base.RetireHotBuffer(Ready());
      cq.Advance();
      got := got + [b];
    }

    /** One turn of the polling loop. */
    method PollAndHandle(e: Choice) returns (b: Buf)
      requires Valid()
      modifies this`got, base, base.hq, base.hq.wrid, base.hq.wr, base.hq.ring, cq
      ensures Valid()
      ensures var p := PollOne(old(State()));
              b == p.0 && State() == if b == 0 then p.2 else Handle(base.Cfg(), p.2, b, p.1, e)
      ensures old(base.hq.log) <= base.hq.log && old(got) <= got
    {
      hide HwQueueRx.RingHolds, HwQueueRx.TableHolds, Layout, Protocol;
      var ok;
      b, ok := Poll();
      if b != 0 {
        base.HandleReceived(b, ok, e, Ready());
      }
    }

    /** One turn of the background drain. */
    method PollAndHandleDrained(e: Choice) returns (b: Buf)
      requires Valid()
      modifies this`got, base, base.hq, base.hq.wrid, base.hq.wr, base.hq.ring, cq
      ensures Valid()
      ensures var p := PollOne(old(State()));
              b == p.0 && State() == if b == 0 then p.2 else HandleDrained(base.Cfg(), p.2, b, p.1, e)
      ensures old(base.hq.log) <= base.hq.log && old(got) <= got
    {
      hide HwQueueRx.RingHolds, HwQueueRx.TableHolds, Layout, Protocol;
      var ok;
      b, ok := Poll();
      if b != 0 {
        base.HandleDrainedOne(b, ok, e, Ready());
      }
    }

    /** Poll and handle up to `|es|` completions. */
    method PollBatch(es: seq<Choice>) returns (polled: nat)
      requires Valid()
      modifies this`got, base, base.hq, base.hq.wrid, base.hq.wr, base.hq.ring, cq
      ensures Valid() && (polled, State()) == PollLoop(base.Cfg(), old(State()), es)
      ensures old(base.hq.log) <= base.hq.log && old(got) <= got
    {
      hide HwQueueRx.RingHolds, HwQueueRx.TableHolds, Layout, Protocol;
      ghost var c, goal := base.Cfg(), PollLoop(base.Cfg(), State(), es);
      polled := 0;
      while polled < |es|
        invariant polled <= |es| && Valid()
        invariant goal.0 == PollLoop(c, State(), es[polled..]).0 + polled
        invariant goal.1 == PollLoop(c, State(), es[polled..]).1
        invariant old(base.hq.log) <= base.hq.log && old(got) <= got
      {
        assert es[polled..][0] == es[polled] && es[polled..][1..] == es[polled + 1..];
        var b := PollAndHandle(es[polled]);
        if b == 0 {
          return;
        }
        polled := polled + 1;
      }
    }

    method ProcessRecvQueue(accepts: seq<bool>) returns (processed: nat)
      requires Valid()
      modifies base
      ensures Valid() && (processed, State()) == ProcessQueue(old(State()), accepts)
    {
      hide HwQueueRx.RingHolds, HwQueueRx.TableHolds, Layout, Protocol;
      ghost var goal := ProcessQueue(State(), accepts);
      processed := 0;
      while base.rxQueue != [] && processed < |accepts|
        invariant processed <= |accepts| && Valid()
        invariant goal.0 == ProcessQueue(State(), accepts[processed..]).0 + processed
        invariant goal.1 == ProcessQueue(State(), accepts[processed..]).1
      {
        assert accepts[processed..][0] == accepts[processed];
        assert accepts[processed..][1..] == accepts[processed + 1..];
        base.ProcessFront(accepts[processed], Ready());
        processed := processed + 1;
      }
    }

    method PollAndProcessElementRx(accepts: seq<bool>, es: seq<Choice>, extra: seq<Buf>)
      requires Valid()
      modifies this`got, base, base.hq, base.hq.wrid, base.hq.wr, base.hq.ring, cq
      ensures Valid() && State() == PollAndProcess(base.Cfg(), old(State()), accepts, es, extra)
      ensures old(base.hq.log) <= base.hq.log && old(got) <= got
    {
      hide HwQueueRx.RingHolds, HwQueueRx.TableHolds, Layout, Protocol, PollLoop, ProcessQueue, CompensateFailed, Sound, Statuses;
      var processed := ProcessRecvQueue(accepts);
      if processed == |accepts| {
        return;
      }
      var polled := PollBatch(es);
      if polled == 0 {
        base.CompensateQpPollFailed(extra, Ready());
      }
    }

    method DrainAndProcess(es: seq<Choice>)
      requires Valid()
      modifies this`got, base, base.hq, base.hq.wrid, base.hq.wr, base.hq.ring, cq
      ensures Valid() && State() == Drain(base.Cfg(), old(State()), es)
      ensures old(base.hq.log) <= base.hq.log && old(got) <= got
    {
      hide HwQueueRx.RingHolds, HwQueueRx.TableHolds, Layout, Protocol;
      ghost var c, s := base.Cfg(), State();
      var i := 0;
      while i < |es|
        invariant i <= |es| && Valid()
        invariant Drain(c, s, es) == Drain(c, State(), es[i..])
        invariant old(base.hq.log) <= base.hq.log && old(got) <= got
      {
        assert es[i..][0] == es[i] && es[i..][1..] == es[i + 1..];
        var b := PollAndHandleDrained(es[i]);
        if b == 0 {
          return;
        }
        i := i + 1;
      }
    }

    /** Poll until nothing is ready, as when the queue goes down. */
    method CleanCq(recycle: bool)
      requires Valid()
      modifies this`got, base, base.hq, base.hq.wrid, base.hq.wr, base.hq.ring, cq
      ensures Valid() && State() == Clean(old(State()), recycle)
      ensures old(base.hq.log) <= base.hq.log && old(got) <= got
    {
      hide HwQueueRx.RingHolds, HwQueueRx.TableHolds, Layout, Protocol, Sound, Statuses;
      ghost var s := State();
      while true
        invariant Valid() && Clean(s, recycle) == Clean(State(), recycle)
        invariant old(base.hq.log) <= base.hq.log && old(got) <= got
        decreases |Ready()|
      {
        var b, ok := Poll();
        if b == 0 {
          return;
        }
        base.SetAside(b, ok && !recycle, Ready());
      }
    }

    /** One operation, by whoever performs it. */
    method Perform(op: Op)
      requires Valid() && Inv(base.Cfg(), State()) && Possible(State(), op)
      modifies this`got, base, base.hq, base.hq.wrid, base.hq.wr, base.hq.ring, cq, cq.ring
      ensures Valid() && State() == Step(base.Cfg(), old(State()), op)
      ensures old(base.hq.log) <= base.hq.log && old(got) <= got
    {
      hide HwQueueRx.RingHolds, HwQueueRx.TableHolds, Layout, Protocol, InvWith;
      hide PollAndProcess, Drain, Clean, ReturnExtra;
      match op {
        case OpComplete(ok) => HwComplete(if ok then 2 else 0xd, 0);
        case OpPoll(accepts, es, extra) => PollAndProcessElementRx(accepts, es, extra);
        case OpDrain(es) => DrainAndProcess(es);
        case OpClean(recycle) => CleanCq(recycle);
        case OpReclaim(chain, mine) => GiveBack(chain, mine);
        case OpReturnExtra => base.ReturnExtraBuffers(Ready());
      }
    }

    /** The upper layer drops its last reference to a chain of buffers, if it holds them. */
    method GiveBack(chain: seq<Buf>, mine: bool)
      requires Valid() && Inv(base.Cfg(), State())
      modifies base
      ensures Valid() && State() == Reclaim(old(State()), chain, mine)
    {
      hide HwQueueRx.RingHolds, HwQueueRx.TableHolds, Layout, Protocol, InvWith;
      if multiset(chain) <= base.upper {
        NoNull(base.Cfg(), State(), chain);
        if chain != [] {
          var _ := base.ReclaimRecvBuffer(chain, mine, Refs(1, 1), Ready());
        }
      }
    }

    /** Any sequence of operations takes the queue through the run of the receive path, with all it keeps. */
    method RunOps(ops: seq<Op>)
      requires Valid() && Inv(base.Cfg(), State()) && Feasible(base.Cfg(), State(), ops)
      modifies this`got, base, base.hq, base.hq.wrid, base.hq.wr, base.hq.ring, cq, cq.ring
      ensures Valid() && Inv(base.Cfg(), State())
      ensures State() == Run(base.Cfg(), old(State()), ops)
      ensures old(base.hq.log) <= base.hq.log && old(got) <= got
    {
      hide HwQueueRx.RingHolds, HwQueueRx.TableHolds, Layout, Protocol, InvWith, Step;
      ghost var c, s := base.Cfg(), State();
      for i := 0 to |ops|
        invariant Valid() && Inv(c, State()) && Feasible(c, State(), ops[i..])
        invariant Run(c, s, ops) == Run(c, State(), ops[i..])
        invariant old(base.hq.log) <= base.hq.log && old(got) <= got
      {
        assert ops[i..][0] == ops[i] && ops[i..][1..] == ops[i + 1..];
        StepKeeps(c, State(), ops[i]);
        Perform(ops[i]);
      }
    }
  }

  /** The hardware can only complete what it was given. */
  ghost predicate Possible(s: Rx, op: Op)
  {
    op.OpComplete? ==> |s.ready| < |s.posted|
  }

  ghost predicate Feasible(c: Config, s: Rx, ops: seq<Op>)
    decreases |ops|
  {
    ops == [] || (Possible(s, ops[0]) && Feasible(c, Step(c, s, ops[0]), ops[1..]))
  }

  lemma NoNull(c: Config, s: Rx, chain: seq<Buf>)
    requires Inv(c, s) && multiset(chain) <= s.upper
    ensures 0 !in chain
  {
    InvIsSound(c, s, multiset{});
    MemberCount(chain, 0);
  }
}
