/**
 The send queue in memory: an array of work request properties indexed by ring
 slot, linked backwards, with a 16-bit producer counter; and the completion
 handler that walks the links.
 */
module TransmitQueue {
  import opened Bits
  import opened Buffers
  import opened CompletionQueue
  import opened TransmitPath

  const REQ_ERR: nat := 0xd
  const RESP_ERR: nat := 0xe
  const COUNTER: nat := 0x1_0000

  /** Properties of the work request in a slot; `next` is the slot posted just before it, or -1. */
  datatype Prop = Prop(buf: Buf, credits: nat, wqebbs: nat, next: int)

  /** Every work request in flight is described in its slot and linked to the one before. */
  ghost predicate Described(props: seq<Prop>, ws: seq<Wqe>, size: nat)
    requires size >= 1
  {
    && |props| == size
    && (forall i {:trigger Place(ws[i], size)} :: 0 <= i < |ws| ==>
          var p := props[Place(ws[i], size)];
          && p.buf == ws[i].buf && p.credits == ws[i].credits && p.wqebbs == ws[i].blocks
          && (i > 0 ==> p.next == Place(ws[i - 1], size)))
  }

  function Place(w: Wqe, size: nat): (r: nat)
    requires size >= 1
    ensures r < size
  {
    Wrap(w.pos, size)
  }

  lemma DescribedMore(props: seq<Prop>, t: Tx, total: nat, size: nat, w: Wqe, last: int)
    requires size >= 1 && total <= size && Inv(t, total) && Described(props, t.inflight, size)
    requires w.pos == t.head && w.blocks >= 1 && w.credits <= t.free && w.blocks <= w.credits
    requires t.inflight != [] ==> last == Place(t.inflight[|t.inflight| - 1], size)
    ensures Described(props[Place(w, size) := Prop(w.buf, w.credits, w.blocks, last)], t.inflight + [w], size)
  {
    hide Inv;
    var ws := t.inflight + [w];
    forall i | 0 <= i < |t.inflight|
      ensures Place(ws[i], size) == Place(t.inflight[i], size) != Place(w, size)
    {
      HeadSlotFree(t, total, size, i, w.credits);
    }
  }

  lemma HeadSlotFree(t: Tx, total: nat, size: nat, i: nat, credits: nat)
    requires total <= size && Inv(t, total) && i < |t.inflight| && 1 <= credits <= t.free
    ensures size >= 1 && Place(t.inflight[i], size) != Wrap(t.head, size)
  {
    ChainSpan(t.inflight, Tail(t), t.head);
    ChainAt(t.inflight, Tail(t), t.head, i);
    WrapDistinct(t.inflight[i].pos, t.head, size);
  }

  lemma DescribedFewer(props: seq<Prop>, ws: seq<Wqe>, size: nat, n: nat)
    requires size >= 1 && Described(props, ws, size) && n <= |ws|
    ensures Described(props, ws[n..], size)
  {
    forall i | 0 <= i < |ws| - n
      ensures Place(ws[n..][i], size) == Place(ws[n + i], size)
    {
    }
  }

  class HwQueueTx {
    const shift: nat
    const size: nat               // ring blocks, a power of two
    const total: nat              // credits granted at start
    const props: array<Prop>
    var last: int                 // slot of the newest work request, or -1
    var lastToComplete: nat       // slot of the oldest one not completed
    var hotIndex: nat
    var counter: nat              // 16 bits
    var freeCredits: nat
    var returned: seq<Buf>        // buffers given back to the ring, in order
    var flagged: seq<Buf>         // buffers marked as failed
    ghost var reserved: nat       // credits taken for work requests not submitted yet
    ghost var tx: Tx

    ghost predicate Valid()
      reads this, props
    {
      && shift <= 16 && size == Pow2(shift) && total <= size && props.Length == size
      && Inv(tx, total)
      && Described(props[..], tx.inflight, size)
      && counter == Wrap(tx.head, COUNTER) && hotIndex == Wrap(tx.head, size)
      && lastToComplete == Wrap(Tail(tx), size)
      && (tx.inflight != [] ==> last == Place(tx.inflight[|tx.inflight| - 1], size))
      && freeCredits + reserved == tx.free
      && returned == tx.returned && flagged == tx.flagged
    }

    constructor (shift: nat, requested: nat)
      requires shift <= 16
      ensures Valid() && fresh(props) && this.shift == shift && reserved == 0
      ensures total == (if requested < Pow2(shift) then requested else Pow2(shift))
      ensures tx == Tx([], total, 0, [], [], [], [])
    {
      this.shift := shift;
      size := Pow2(shift);
      total := if requested < Pow2(shift) then requested else Pow2(shift);
      props := new Prop[Pow2(shift)](_ => Prop(0, 0, 0, -1));
      last, lastToComplete, hotIndex, counter := -1, 0, 0, 0;
      freeCredits := if requested < Pow2(shift) then requested else Pow2(shift);
      returned, flagged, reserved := [], [], 0;
      tx := Tx([], if requested < Pow2(shift) then requested else Pow2(shift), 0, [], [], [], []);
      new;
      Pow2Monotone(0, shift);
    }

    method CreditsGet(credits: nat) returns (ok: bool)
      requires Valid()
      modifies this`freeCredits, this`reserved
      ensures Valid()
      ensures ok <==> credits <= old(freeCredits)
      ensures reserved == old(reserved) + (if ok then credits else 0)
    {
      ok := freeCredits >= credits;
      if ok {
        freeCredits, reserved := freeCredits - credits, reserved + credits;
      }
    }

    method CreditsReturn(credits: nat)
      requires Valid() && credits <= reserved
      modifies this`freeCredits, this`reserved
      ensures Valid() && freeCredits == old(freeCredits) + credits && reserved == old(reserved) - credits
    {
      freeCredits, reserved := freeCredits + credits, reserved - credits;
    }

    /** Advance the producer counter past a work request. */
    method RingDoorbell(wqebbs: nat)
      requires shift <= 16 && size == Pow2(shift) && counter == Wrap(tx.head, COUNTER)
      modifies this`counter, this`hotIndex
      ensures counter == Wrap(tx.head + wqebbs, COUNTER) && hotIndex == Wrap(tx.head + wqebbs, size)
    {
      WrapAdd(tx.head, wqebbs, COUNTER);
      CounterSlot(tx.head + wqebbs, shift);
      counter := (counter + wqebbs) % COUNTER;
      hotIndex := And(counter, size - 1);
    }

    /**
     Follow the links from a completed work request back to the oldest one: the stop slot is always
     reached, and exactly the work requests up to the completed one are visited, newest first.
     */
    method WalkBack(index: nat, ghost k: nat) returns (credits: nat, bufs: seq<Buf>)
      requires Valid() && k < |tx.inflight| && index == Place(tx.inflight[k], size)
      ensures credits == Credits(tx.inflight[..k + 1]) && bufs == Backwards(tx.inflight[..k + 1])
    {
      hide Inv, Wrap, Credits, Backwards;
      var p := index;
      credits, bufs := 0, [];
      ghost var ws, j := tx.inflight, k;
      Nothing(ws, k + 1);
      while true
        invariant 0 <= j <= k && p == Place(ws[j], size)
        invariant credits == Credits(ws[j + 1..k + 1]) && bufs == Backwards(ws[j + 1..k + 1])
        decreases j
      {
        WalkStep(ws, j, k);
        TailSlot(tx, total, size, j);
        var prop := props[p];
        if prop.buf != 0 {
          bufs := bufs + [prop.buf];
        }
        credits := credits + prop.credits;
        if p == lastToComplete {
          assert ws[..k + 1] == ws[0..k + 1];
          return;
        }
        p, j := prop.next, j - 1;
      }
    }

    /** Mark the buffer of a failed work request. */
    method Flag(index: nat, ghost j: nat)
      requires Valid() && j < |tx.inflight| && index == Place(tx.inflight[j], size)
      modifies this`flagged, this`tx
      ensures Valid() && tx == old(tx).(flagged := old(tx).flagged + [old(tx).inflight[j].buf])
    {
      hide Wrap, Chain, Credits, Backwards;
      flagged := flagged + [props[index].buf];
      tx := tx.(flagged := flagged);
    }

    /** Retire everything up to the work request of the k-th waiting completion. */
    method HandleSqWqeProp(index: nat, ghost k: nat)
      requires Valid() && k < |tx.ready| && tx.ready[k].idx < |tx.inflight|
      requires index == Place(tx.inflight[tx.ready[k].idx], size)
      modifies this`freeCredits, this`returned, this`lastToComplete, this`tx
      ensures Valid() && tx == Retire(old(tx), k)
    {
      hide Inv, Described, Wrap, Credits, Backwards, Shift;
      ghost var n := tx.ready[k].idx + 1;
      var credits, bufs := WalkBack(index, n - 1);
      NextTail(tx, total, n, props[..], size);
      DescribedFewer(props[..], tx.inflight, size, n);
      RetireMarkKeeps(tx, total, k);
      returned := returned + bufs;
      freeCredits := freeCredits + credits;
      lastToComplete := (index + props[index].wqebbs) % size;
      tx := Retire(tx, k);
    }

    /** Post a work request for which credits were taken. */
    method SubmitWqe(buf: Buf, credits: nat, wqebbs: nat)
      requires Valid() && 1 <= wqebbs <= credits <= reserved
      modifies this`last, this`hotIndex, this`counter, this`reserved, this`tx, props
      ensures Valid() && tx == Send(old(tx), buf, credits, wqebbs)
      ensures reserved == old(reserved) - credits
    {
      hide Inv, Described, Wrap;
      ghost var w := Wqe(tx.head, wqebbs, credits, buf);
      DescribedMore(props[..], tx, total, size, w, last);
      SendKeeps(tx, total, buf, credits, wqebbs);
      TailStays(tx, buf, credits, wqebbs);
      ghost var before := props[..];
      props[hotIndex] := Prop(buf, credits, wqebbs, last);
      assert props[..] == before[hotIndex := Prop(buf, credits, wqebbs, last)];
      last := hotIndex;
      RingDoorbell(wqebbs);
      reserved := reserved - credits;
      tx := Send(tx, buf, credits, wqebbs);
    }
  }

  /** Step `j` of a walk from the k-th work request back to the oldest. */
  lemma WalkStep(ws: seq<Wqe>, j: nat, k: nat)
    requires j <= k < |ws|
    ensures Credits(ws[j..k + 1]) == ws[j].credits + Credits(ws[j + 1..k + 1])
    ensures Backwards(ws[j..k + 1]) == Backwards(ws[j + 1..k + 1]) + Own(ws[j])
  {
    var s := ws[j..k + 1];
    assert s[1..] == ws[j + 1..k + 1] && s == [ws[j]] + s[1..];
    BackwardsConcat([ws[j]], s[1..]);
    assert Backwards([ws[j]]) == Own(ws[j]) + Backwards([]);
  }

  /** Only the oldest work request in flight is in the slot of the tail. */
  lemma TailSlot(t: Tx, total: nat, size: nat, j: nat)
    requires total <= size && Inv(t, total) && j < |t.inflight|
    ensures size >= 1 && (Place(t.inflight[j], size) == Wrap(Tail(t), size) <==> j == 0)
  {
    ChainSpan(t.inflight, Tail(t), t.head);
    ChainAt(t.inflight, Tail(t), t.head, j);
    if j > 0 {
      ChainOrder(t.inflight, Tail(t), t.head, 0, j);
      WrapDistinct(Tail(t), t.inflight[j].pos, size);
    }
  }

  lemma TailStays(t: Tx, buf: Buf, credits: nat, blocks: nat)
    ensures Tail(Send(t, buf, credits, blocks)) == Tail(t)
  {
  }

  lemma Nothing(ws: seq<Wqe>, n: nat)
    requires n <= |ws|
    ensures Credits(ws[n..n]) == 0 && Backwards(ws[n..n]) == []
  {
  }

  /** The slot after a completed work request is that of the oldest one left, or of the next to post. */
  lemma NextTail(t: Tx, total: nat, n: nat, props: seq<Prop>, size: nat)
    requires size >= 1 && Inv(t, total) && 1 <= n <= |t.inflight| && Described(props, t.inflight, size)
    ensures var index := Place(t.inflight[n - 1], size);
            (index + props[index].wqebbs) % size == Wrap(Tail(RetireTo(t, n)), size)
  {
    var w := t.inflight[n - 1];
    var mid := ChainSplit(t.inflight, n, Tail(t), t.head);
    assert mid == Tail(RetireTo(t, n)) by {
      hide Credits, Backwards;
      assert t.inflight[n..] == [] ==> mid == t.head;
    }
    assert props[Place(w, size)].wqebbs == w.blocks;
    WrapAdd(w.pos, w.blocks, size);
  }

  /** The 16-bit counter masked by the ring size is the slot of the unbounded position. */
  lemma CounterSlot(pos: nat, shift: nat)
    requires shift <= 16
    ensures And(Wrap(pos, COUNTER), Pow2(shift) - 1) == Wrap(pos, Pow2(shift))
  {
    assert Pow2(16) == COUNTER by { Pow2Byte(0); Pow2Byte(8); }
    WrapIsMod(pos, COUNTER);
    AndMask(Wrap(pos, COUNTER), shift);
    WrapKeepsIndex(pos, shift, 16);
    WrapIsMod(pos, Pow2(shift));
  }

  /** The entries of the completion queue describe the completions the device has reported. */
  ghost predicate Signals(entries: seq<Cqe>, t: Tx)
    requires InOrder(t)
  {
    && |entries| == |t.ready|
    && (forall i :: 0 <= i < |entries| ==>
          var w := t.inflight[t.ready[i].idx];
          && entries[i].wqeCounter == Wrap(w.pos, COUNTER)
          && t.ready[i].stop == (entries[i].opOwn >= 0x80)
          && t.ready[i].error == Failed(entries[i])
          && (t.ready[i].error ==> w.buf != 0))
  }

  predicate Failed(e: Cqe)
  {
    e.opOwn >= 0x80 && (Opcode(e) == REQ_ERR || Opcode(e) == RESP_ERR)
  }

  /** The entries behind the one acted on describe the completions that remain. */
  lemma SignalsLeft(entries: seq<Cqe>, t: Tx, k: nat)
    requires InOrder(t) && Signals(entries, t) && k < |entries|
    ensures InOrder(Act(t, k)) && Signals(entries[k + 1..], Act(t, k))
  {
    hide Credits, Backwards, Shift;
    ActKeepsOrder(t, k);
    var n := t.ready[k].idx + 1;
    forall i | 0 <= i < |entries| - k - 1
      ensures Act(t, k).ready[i] == t.ready[k + 1 + i].(idx := t.ready[k + 1 + i].idx - n)
    {
      ShiftAt(t.ready[k + 1..], n, i);
    }
  }

  class CqMgrTx {
    const queue: HwQueueTx
    const cq: CompletionRing

    ghost predicate Valid()
      reads this, queue, queue.props, cq, cq.ring
    {
      && queue.Valid() && cq.Valid()
      && queue.total <= cq.count
      && Signals(cq.Ready(), queue.tx)
    }

    constructor (queue: HwQueueTx, cq: CompletionRing)
      requires queue.Valid() && cq.Valid() && queue.total <= cq.count
      requires queue.tx.ready == [] && cq.Ready() == []
      ensures Valid() && this.queue == queue && this.cq == cq
    {
      this.queue := queue;
      this.cq := cq;
    }

    /** The device completes a work request behind those it reported; there is always room to do so. */
    method HwComplete(ghost idx: nat, wqeCounter: nat, opcode: nat)
      requires Valid() && opcode < CQE_INVALID
      requires var stop := opcode >= 8; var error := opcode == REQ_ERR || opcode == RESP_ERR;
               && Possible(queue.tx, Complete(Mark(idx, stop, error)))
               && wqeCounter == Wrap(queue.tx.inflight[idx].pos, COUNTER)
      modifies queue`tx, cq`written, cq`produced, cq.ring
      ensures Valid()
      ensures var stop := opcode >= 8; var error := opcode == REQ_ERR || opcode == RESP_ERR;
              queue.tx == Next(old(queue.tx), Complete(Mark(idx, stop, error)))
    {
      hide Described, Wrap, Chain, Credits, Backwards;
      ghost var m := Mark(idx, opcode >= 8, opcode == REQ_ERR || opcode == RESP_ERR);
      ghost var t := queue.tx.(ready := queue.tx.ready + [m]);
      NextKeeps(queue.tx, queue.total, Complete(m));
      ReadyBounded(t, queue.total);
      ghost var before := cq.Ready();
      cq.Produce(opcode, wqeCounter, 0);
      queue.tx := t;
      assert cq.Ready() == before + [cq.written[|cq.written| - 1]];
    }

    /** Act on the k-th of the completions that were waiting. */
    method Process(cqe: Cqe, ghost k: nat)
      requires queue.Valid() && k < |queue.tx.ready| && Failed(cqe) == queue.tx.ready[k].error
      requires cqe.wqeCounter == Wrap(queue.tx.inflight[queue.tx.ready[k].idx].pos, COUNTER)
      modifies queue`freeCredits, queue`returned, queue`lastToComplete, queue`flagged, queue`tx
      ensures queue.Valid() && queue.tx == Act(old(queue.tx), k)
    {
      hide Described, Wrap, Chain, Credits, Backwards, Shift, RetireTo;
      CounterSlot(queue.tx.inflight[queue.tx.ready[k].idx].pos, queue.shift);
      var index := And(cqe.wqeCounter, queue.size - 1);
      if Failed(cqe) {
        queue.Flag(index, queue.tx.ready[k].idx);
      }
      queue.HandleSqWqeProp(index, k);
    }

    /**
     Poll every ready completion and act on the last; a poll that saw none changes nothing.
     */
    method PollAndProcessElementTx() returns (ret: int, polled: nat)
      requires Valid()
      modifies queue`freeCredits, queue`returned, queue`lastToComplete, queue`flagged, queue`tx, cq`ci, cq`taken
      ensures Valid()
      ensures queue.tx == Next(old(queue.tx), Poll)
      ensures polled == Drained(old(queue.tx).ready) && (ret == 1 <==> polled > 0) && (polled == 0 ==> ret == -1)
    {
      hide Described, Wrap, Chain, Credits, Backwards, Shift, Act, Drained, Protocol, Layout;
      var cqe;
      ghost var t, entries := queue.tx, cq.Ready();
      cqe, polled := cq.Drain();
      DrainedIs(t.ready, polled);
      ret := -1;
      if cqe.Some? {
        SignalsLeft(entries, t, polled - 1);
        Process(cqe.value, polled - 1);
        ret := 1;
      } else {
        assert cq.Ready() == entries;
      }
    }

    /** Send a buffer if there are credits for it. */
    method Send(buf: Buf, credits: nat, wqebbs: nat)
      requires Valid() && queue.reserved == 0 && 1 <= wqebbs <= credits
      modifies queue, queue.props
      ensures Valid() && queue.reserved == 0
      ensures queue.tx == Next(old(queue.tx), Post(buf, credits, wqebbs))
    {
      hide Described, Wrap, Chain, Credits, Backwards, Layout, Protocol;
      SignalsMore(cq.Ready(), queue.tx, buf, credits, wqebbs);
      var ok := queue.CreditsGet(credits);
      if ok {
        queue.SubmitWqe(buf, credits, wqebbs);
      }
    }

    /** One step, by whoever performs it; `counter` is what the device puts in a completion. */
    method Perform(s: Step, counter: nat)
      requires Valid() && queue.reserved == 0 && Possible(queue.tx, s)
      requires s.Complete? ==> counter == Wrap(queue.tx.inflight[s.mark.idx].pos, COUNTER)
      modifies queue, queue.props, cq, cq.ring
      ensures Valid() && queue.reserved == 0 && queue.tx == Next(old(queue.tx), s)
    {
      hide HwQueueTx.Valid, Wrap, Layout, Protocol, Next, Inv;
      match s {
        case Post(buf, credits, blocks) => Send(buf, credits, blocks);
        case Complete(m) =>
          HwComplete(m.idx, counter, if m.error then REQ_ERR else if m.stop then 8 else 0);
        case Poll =>
          var _, _ := PollAndProcessElementTx();
      }
    }

    /** Any sequence of steps takes the queue through the run of the send path, with all it keeps. */
    method RunSteps(steps: seq<Step>, counters: seq<nat>)
      requires Valid() && queue.reserved == 0 && Reported(queue.tx, steps, counters)
      modifies queue, queue.props, cq, cq.ring
      ensures Valid() && Feasible(old(queue.tx), steps) && queue.tx == Run(old(queue.tx), steps)
    {
      hide HwQueueTx.Valid, Wrap, Layout, Protocol, Next, Inv, Possible, Signals, InOrder;
      ghost var t := queue.tx;
      ReportedFeasible(t, steps, counters);
      for i := 0 to |steps|
        invariant Valid() && queue.reserved == 0 && Reported(queue.tx, steps[i..], counters[i..])
        invariant Feasible(queue.tx, steps[i..]) && Run(t, steps) == Run(queue.tx, steps[i..])
      {
        assert steps[i..][0] == steps[i] && steps[i..][1..] == steps[i + 1..];
        assert counters[i..][0] == counters[i] && counters[i..][1..] == counters[i + 1..];
        Perform(steps[i], counters[i]);
      }
    }
  }

  /** Steps that can happen in turn, each with the counter its completion carries. */
  ghost predicate Reported(t: Tx, steps: seq<Step>, counters: seq<nat>)
    decreases |steps|
  {
    |counters| == |steps| && (steps == [] ||
      (&& InOrder(t) && Possible(t, steps[0])
       && (steps[0].Complete? ==> counters[0] == Wrap(t.inflight[steps[0].mark.idx].pos, COUNTER))
       && Reported(Next(t, steps[0]), steps[1..], counters[1..])))
  }

  lemma {:induction false} ReportedFeasible(t: Tx, steps: seq<Step>, counters: seq<nat>)
    requires Reported(t, steps, counters)
    ensures Feasible(t, steps)
    decreases |steps|
  {
    if steps != [] { ReportedFeasible(Next(t, steps[0]), steps[1..], counters[1..]); }
  }

  lemma SignalsMore(entries: seq<Cqe>, t: Tx, buf: Buf, credits: nat, blocks: nat)
    requires InOrder(t) && Signals(entries, t)
    ensures InOrder(TransmitPath.Send(t, buf, credits, blocks))
    ensures Signals(entries, TransmitPath.Send(t, buf, credits, blocks))
  {
    hide Wrap, Own;
    SendKeepsOrder(t, buf, credits, blocks);
  }
}
