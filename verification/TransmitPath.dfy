/**
 The send queue.  Work requests are posted one after the other on a ring of
 blocks and complete in order; only some of them ask for a completion, and one
 completion retires everything up to its work request.  Credits stand for ring
 blocks.
 */
module TransmitPath {
  import opened Bits
  import opened Buffers

  /** A posted work request: unbounded ring position, size in blocks, charge, and buffer (or none). */
  datatype Wqe = Wqe(pos: nat, blocks: nat, credits: nat, buf: Buf)

  /**
   A completion for the work request `idx` places behind the oldest one in flight.  `stop` marks
   the opcodes at which polling pauses; all error opcodes are among them.
   */
  datatype Mark = Mark(idx: nat, stop: bool, error: bool)

  datatype Tx = Tx(
    inflight: seq<Wqe>,       // oldest first
    free: nat,                // credits
    head: nat,                // position of the next work request
    ready: seq<Mark>,         // completions not polled yet
    sent: seq<Buf>,           // buffers handed over, in order
    returned: seq<Buf>,       // buffers given back, in order
    flagged: seq<Buf>)        // buffers marked as failed

  // ---------- steps ----------

  function Credits(ws: seq<Wqe>): nat
  {
    if ws == [] then 0 else ws[0].credits + Credits(ws[1..])
  }

  /** The buffers of a chain of work requests, newest first, skipping those without one. */
  function Backwards(ws: seq<Wqe>): seq<Buf>
  {
    if ws == [] then []
    else Own(ws[|ws| - 1]) + Backwards(ws[..|ws| - 1])
  }

  function Own(w: Wqe): seq<Buf>
  {
    if w.buf == 0 then [] else [w.buf]
  }

  /** Charge `credits` and post; refused when there are not enough. */
  function Send(t: Tx, buf: Buf, credits: nat, blocks: nat): Tx
  {
    if credits > t.free then t
    else
      var w := Wqe(t.head, blocks, credits, buf);
      t.(inflight := t.inflight + [w], free := t.free - credits, head := t.head + blocks,
         sent := t.sent + Own(w))
  }

  /** Retire the `n` oldest work requests. */
  function RetireTo(t: Tx, n: nat): Tx
    requires n <= |t.inflight|
  {
    t.(inflight := t.inflight[n..],
       free := t.free + Credits(t.inflight[..n]),
       returned := t.returned + Backwards(t.inflight[..n]))
  }

  /** The completions that remain, seen from the new oldest work request. */
  function Shift(ms: seq<Mark>, n: nat): (r: seq<Mark>)
    ensures |r| == |ms|
  {
    if ms == [] then []
    else [ms[0].(idx := if ms[0].idx >= n then ms[0].idx - n else 0)] + Shift(ms[1..], n)
  }

  /** Act on the k-th waiting completion and forget the ones before it. */
  function Act(t: Tx, k: nat): Tx
    requires k < |t.ready| && t.ready[k].idx < |t.inflight|
  {
    var m := t.ready[k];
    var t1 := if m.error then t.(flagged := t.flagged + [t.inflight[m.idx].buf]) else t;
    Retire(t1, k)
  }

  function Retire(t: Tx, k: nat): Tx
    requires k < |t.ready| && t.ready[k].idx < |t.inflight|
  {
    var n := t.ready[k].idx + 1;
    RetireTo(t, n).(ready := Shift(t.ready[k + 1..], n))
  }

  /** How many completions one poll steps over: all, or up to the first that stops it. */
  function Drained(ms: seq<Mark>): (n: nat)
    ensures n <= |ms|
  {
    if ms == [] then 0 else if ms[0].stop then 1 else 1 + Drained(ms[1..])
  }

  /** Completions come in posting order and belong to work requests in flight; errors stop the poll. */
  ghost predicate InOrder(t: Tx)
  {
    && (forall i :: 0 <= i < |t.ready| ==> t.ready[i].idx < |t.inflight|)
    && (forall i, j :: 0 <= i < j < |t.ready| ==> t.ready[i].idx < t.ready[j].idx)
    && (forall i :: 0 <= i < |t.ready| && t.ready[i].error ==> t.ready[i].stop)
  }

  ghost function PollCoalesced(t: Tx): Tx
    requires InOrder(t)
  {
    var n := Drained(t.ready);
    if n == 0 then t else Act(t, n - 1)
  }

  ghost function PollSingly(t: Tx, n: nat): Tx
    requires InOrder(t) && n <= |t.ready|
    decreases n
  {
    if n == 0 then t
    else
      ActKeepsOrder(t, 0);
      PollSingly(Act(t, 0), n - 1)
  }

  // ---------- lemmas ----------

  lemma {:induction false} ShiftAt(ms: seq<Mark>, n: nat, i: nat)
    requires i < |ms|
    ensures Shift(ms, n)[i] == ms[i].(idx := if ms[i].idx >= n then ms[i].idx - n else 0)
  {
    if i > 0 { ShiftAt(ms[1..], n, i - 1); }
  }

  lemma ActKeepsOrder(t: Tx, k: nat)
    requires InOrder(t) && k < |t.ready|
    ensures InOrder(Act(t, k)) && |Act(t, k).ready| == |t.ready| - k - 1
  {
    var r, n := Act(t, k), t.ready[k].idx + 1;
    forall i | 0 <= i < |r.ready|
      ensures r.ready[i] == t.ready[k + 1 + i].(idx := t.ready[k + 1 + i].idx - n)
    {
      ShiftAt(t.ready[k + 1..], n, i);
    }
  }

  lemma {:induction false} CreditsConcat(a: seq<Wqe>, b: seq<Wqe>)
    ensures Credits(a + b) == Credits(a) + Credits(b)
  {
    if a == [] {
      assert a + b == b;
    } else {
      CreditsConcat(a[1..], b);
      assert (a + b)[1..] == a[1..] + b;
    }
  }

  lemma BackwardsSnoc(ws: seq<Wqe>, w: Wqe)
    ensures Backwards(ws + [w]) == Own(w) + Backwards(ws)
  {
    assert (ws + [w])[..|ws|] == ws;
  }

  lemma Regroup(x: seq<Buf>, y: seq<Buf>, z: seq<Buf>)
    ensures x + (y + z) == (x + y) + z
  {
  }

  lemma BackwardsStep(a: seq<Wqe>, early: seq<Wqe>, w: Wqe)
    requires Backwards(a + early) == Backwards(early) + Backwards(a)
    ensures Backwards((a + early) + [w]) == Backwards(early + [w]) + Backwards(a)
  {
    hide Backwards, Own;
    BackwardsSnoc(a + early, w);
    BackwardsSnoc(early, w);
    Regroup(Own(w), Backwards(early), Backwards(a));
  }

  lemma NoneBackwards(a: seq<Wqe>)
    ensures Backwards(a + []) == Backwards([]) + Backwards(a)
  {
    assert a + [] == a && Backwards([]) == [];
    hide Backwards;
  }

  lemma {:induction false} BackwardsConcat(a: seq<Wqe>, b: seq<Wqe>)
    ensures Backwards(a + b) == Backwards(b) + Backwards(a)
  {
    hide Backwards;
    if b == [] {
      NoneBackwards(a);
    } else {
      var early, w := b[..|b| - 1], b[|b| - 1];
      BackwardsConcat(a, early);
      BackwardsStep(a, early, w);
      assert b == early + [w];
      assert a + b == (a + early) + [w];
    }
  }

  lemma {:induction false} ShiftTwice(ms: seq<Mark>, m: nat, n: nat)
    ensures Shift(Shift(ms, m), n) == Shift(ms, m + n)
  {
    if ms != [] { ShiftTwice(ms[1..], m, n); }
  }

  lemma {:induction false} ShiftDrop(ms: seq<Mark>, n: nat, k: nat)
    requires k <= |ms|
    ensures Shift(ms, n)[k..] == Shift(ms[k..], n)
  {
    if k > 0 {
      ShiftDrop(ms[1..], n, k - 1);
      assert Shift(ms, n)[1..] == Shift(ms[1..], n);
      assert ms[1..][k - 1..] == ms[k..];
    }
  }

  /** Equal in everything but the order in which buffers were given back. */
  ghost predicate Same(a: Tx, b: Tx)
  {
    a == b.(returned := a.returned) && multiset(a.returned) == multiset(b.returned)
  }

  lemma RetireTwice(t: Tx, m: nat, n: nat)
    requires m + n <= |t.inflight|
    ensures Same(RetireTo(RetireTo(t, m), n), RetireTo(t, m + n))
  {
    var early, late := t.inflight[..m], t.inflight[m..][..n];
    assert t.inflight[..m + n] == early + late;
    assert t.inflight[m..][n..] == t.inflight[m + n..];
    CreditsConcat(early, late);
    BackwardsConcat(early, late);
  }

  /** Acting on an earlier harmless completion first makes no difference. */
  lemma ActTwice(t: Tx, k: nat)
    requires InOrder(t) && 1 <= k < |t.ready| && !t.ready[0].error
    ensures InOrder(Act(t, 0)) && |Act(t, 0).ready| == |t.ready| - 1
    ensures Same(Act(Act(t, 0), k - 1), Act(t, k))
  {
    hide Shift, Credits, Backwards;
    ActKeepsOrder(t, 0);
    var t1, m, n := Act(t, 0), t.ready[0].idx + 1, t.ready[k].idx + 1;
    ShiftAt(t.ready[1..], m, k - 1);
    assert t1.ready[k - 1].idx == t.ready[k].idx - m;
    assert t1.inflight[t.ready[k].idx - m] == t.inflight[t.ready[k].idx];
    ShiftDrop(t.ready[1..], m, k);
    assert t.ready[1..][k..] == t.ready[k + 1..];
    ShiftTwice(t.ready[k + 1..], m, n - m);
    var u := if t.ready[k].error then t.(flagged := t.flagged + [t.inflight[t.ready[k].idx].buf]) else t;
    RetireTwice(u, m, n - m);
  }

  lemma ActReady(t: Tx)
    requires InOrder(t) && t.ready != []
    ensures Act(t, 0).ready == Shift(t.ready[1..], t.ready[0].idx + 1)
  {
  }

  lemma {:induction false} SkippingIsSingly(t: Tx, n: nat)
    requires InOrder(t) && 1 <= n <= |t.ready|
    requires forall i :: 0 <= i < n - 1 ==> !t.ready[i].error
    ensures Same(Act(t, n - 1), PollSingly(t, n))
    decreases n
  {
    hide Act, Shift;
    ActKeepsOrder(t, 0);
    ActReady(t);
    var t1 := Act(t, 0);
    assert PollSingly(t, n) == PollSingly(t1, n - 1);
    if n > 1 {
      ActTwice(t, n - 1);
      forall i | 0 <= i < n - 2
        ensures !t1.ready[i].error
      {
        ShiftAt(t.ready[1..], t.ready[0].idx + 1, i);
      }
      SkippingIsSingly(t1, n - 1);
    }
  }

  lemma {:induction false} DrainedStops(ms: seq<Mark>)
    ensures var n := Drained(ms);
            && (forall i :: 0 <= i < n - 1 ==> !ms[i].stop)
            && (n == |ms| || ms[n - 1].stop) && (ms != [] ==> n >= 1)
  {
    if ms != [] && !ms[0].stop {
      DrainedStops(ms[1..]);
      forall i | 0 <= i < Drained(ms) - 1
        ensures !ms[i].stop
      {
        if i > 0 { assert ms[i] == ms[1..][i - 1]; }
      }
    }
  }

  /** The stopping point is determined by what the polling loop observes. */
  lemma {:induction false} DrainedIs(ms: seq<Mark>, n: nat)
    requires n <= |ms| && (forall i :: 0 <= i < n - 1 ==> !ms[i].stop)
    requires n == |ms| || (n > 0 && ms[n - 1].stop)
    ensures n == Drained(ms)
  {
    if n > 1 || (n == 1 && !ms[0].stop) {
      DrainedIs(ms[1..], n - 1);
    }
  }

  /**
   One coalesced poll retires the same work requests, returns the same buffers and credits and
   leaves the same completions waiting as handling every completion by itself; and a failed one is
   never swallowed by a later one, it is the one acted on.
   */
  lemma CoalescingRefinesSingly(t: Tx)
    requires InOrder(t)
    ensures Same(PollCoalesced(t), PollSingly(t, Drained(t.ready)))
    ensures forall i :: 0 <= i < Drained(t.ready) && t.ready[i].error ==> i == Drained(t.ready) - 1
  {
    DrainedStops(t.ready);
    if t.ready != [] {
      SkippingIsSingly(t, Drained(t.ready));
    }
  }

  // ---------- the ring ----------

  /** Work requests that follow each other on the ring from `start` to `end`, none of them undercharged. */
  ghost predicate Chain(ws: seq<Wqe>, start: nat, end: nat)
  {
    if ws == [] then start == end
    else
      && ws[0].pos == start && 1 <= ws[0].blocks <= ws[0].credits
      && Chain(ws[1..], start + ws[0].blocks, end)
  }

  /** Position of the oldest work request in flight, or of the next one to post. */
  function Tail(t: Tx): nat
  {
    if t.inflight == [] then t.head else t.inflight[0].pos
  }

  /** `total` credits were granted to the queue and every buffer handed over is in flight or returned. */
  ghost predicate Inv(t: Tx, total: nat)
  {
    && Chain(t.inflight, Tail(t), t.head)
    && t.free + Credits(t.inflight) == total
    && multiset(t.sent) == multiset(t.returned) + multiset(Backwards(t.inflight))
    && InOrder(t)
  }

  lemma {:induction false} ChainConcat(a: seq<Wqe>, b: seq<Wqe>, start: nat, mid: nat, end: nat)
    requires Chain(a, start, mid) && Chain(b, mid, end)
    ensures Chain(a + b, start, end)
  {
    if a == [] {
      assert a + b == b;
    } else {
      ChainConcat(a[1..], b, start + a[0].blocks, mid, end);
      assert (a + b)[1..] == a[1..] + b;
    }
  }

  lemma {:induction false} ChainSplit(ws: seq<Wqe>, n: nat, start: nat, end: nat) returns (mid: nat)
    requires Chain(ws, start, end) && n <= |ws|
    ensures Chain(ws[..n], start, mid) && Chain(ws[n..], mid, end)
    ensures n < |ws| ==> mid == ws[n].pos
    ensures 0 < n ==> mid == ws[n - 1].pos + ws[n - 1].blocks
  {
    if n == 0 {
      mid := start;
      assert ws[0..] == ws;
    } else {
      mid := ChainSplit(ws[1..], n - 1, start + ws[0].blocks, end);
      assert ws[..n][1..] == ws[1..][..n - 1] && ws[1..][n - 1..] == ws[n..];
    }
  }

  /** A chain takes no more blocks than it was charged for. */
  lemma {:induction false} ChainSpan(ws: seq<Wqe>, start: nat, end: nat)
    requires Chain(ws, start, end)
    ensures start + |ws| <= end <= start + Credits(ws)
  {
    if ws != [] { ChainSpan(ws[1..], start + ws[0].blocks, end); }
  }

  /** The blocks of the i-th work request lie between the ends of its chain, and before those of the next. */
  lemma ChainOrder(ws: seq<Wqe>, start: nat, end: nat, i: nat, j: nat)
    requires Chain(ws, start, end) && i < j < |ws|
    ensures start <= ws[i].pos && 1 <= ws[i].blocks && ws[i].pos + ws[i].blocks <= ws[j].pos
    ensures 1 <= ws[j].blocks && ws[j].pos + ws[j].blocks <= end
    ensures j == i + 1 ==> ws[j].pos == ws[i].pos + ws[i].blocks
  {
    var m := ChainSplit(ws, j, start, end);
    var k := ChainSplit(ws[..j], i, start, m);
    hide Credits;
    ChainSpan(ws[..j][..i], start, k);
    ChainSpan(ws[..j][i..][1..], k + ws[i].blocks, m);
    ChainSpan(ws[j..][1..], m + ws[j].blocks, end);
  }

  lemma ChainAt(ws: seq<Wqe>, start: nat, end: nat, i: nat)
    requires Chain(ws, start, end) && i < |ws|
    ensures start <= ws[i].pos && 1 <= ws[i].blocks <= ws[i].credits && ws[i].pos + ws[i].blocks <= end
  {
    var k := ChainSplit(ws, i, start, end);
    ChainSpan(ws[..i], start, k);
    ChainSpan(ws[i..][1..], k + ws[i].blocks, end);
  }

  /** Work requests in flight never share a slot of the ring. */
  lemma SlotsDisjoint(t: Tx, total: nat, size: nat, i: nat, j: nat, a: nat, b: nat)
    requires Inv(t, total) && total <= size && i < j < |t.inflight|
    requires t.inflight[i].pos <= a < t.inflight[i].pos + t.inflight[i].blocks
    requires t.inflight[j].pos <= b < t.inflight[j].pos + t.inflight[j].blocks
    ensures size >= 1 && Wrap(a, size) != Wrap(b, size)
  {
    ChainSpan(t.inflight, Tail(t), t.head);
    ChainOrder(t.inflight, Tail(t), t.head, i, j);
    WrapDistinct(a, b, size);
  }

  /** There are never more completions waiting than credits, so a completion queue of that size suffices. */
  lemma ReadyBounded(t: Tx, total: nat)
    requires Inv(t, total)
    ensures |t.ready| <= |t.inflight| <= total
  {
    ChainSpan(t.inflight, Tail(t), t.head);
    if t.ready != [] {
      IndexAtLeast(t, |t.ready| - 1);
    }
  }

  lemma {:induction false} IndexAtLeast(t: Tx, i: nat)
    requires InOrder(t) && i < |t.ready|
    ensures t.ready[i].idx >= i
  {
    if i > 0 { IndexAtLeast(t, i - 1); }
  }

  // ---------- every run ----------

  datatype Step =
    | Post(buf: Buf, credits: nat, blocks: nat)
    | Complete(mark: Mark)
    | Poll

  /** What a caller and the device may do next; the device completes in order. */
  ghost predicate Possible(t: Tx, s: Step)
  {
    match s
    case Post(_, credits, blocks) => 1 <= blocks <= credits
    case Complete(m) =>
      && m.idx < |t.inflight| && (m.error ==> m.stop && t.inflight[m.idx].buf != 0)
      && (t.ready != [] ==> t.ready[|t.ready| - 1].idx < m.idx)
    case Poll => true
  }

  ghost function Next(t: Tx, s: Step): Tx
    requires InOrder(t)
  {
    match s
    case Post(buf, credits, blocks) => Send(t, buf, credits, blocks)
    case Complete(m) => t.(ready := t.ready + [m])
    case Poll => PollCoalesced(t)
  }

  ghost predicate Feasible(t: Tx, steps: seq<Step>)
    decreases |steps|
  {
    steps == [] || (InOrder(t) && Possible(t, steps[0]) && Feasible(Next(t, steps[0]), steps[1..]))
  }

  ghost function Run(t: Tx, steps: seq<Step>): Tx
    requires Feasible(t, steps)
    decreases |steps|
  {
    if steps == [] then t else Run(Next(t, steps[0]), steps[1..])
  }

  lemma SendKeepsOrder(t: Tx, buf: Buf, credits: nat, blocks: nat)
    requires InOrder(t)
    ensures InOrder(Send(t, buf, credits, blocks))
  {
    hide Own;
  }

  lemma SendKeeps(t: Tx, total: nat, buf: Buf, credits: nat, blocks: nat)
    requires Inv(t, total) && 1 <= blocks <= credits
    ensures Inv(Send(t, buf, credits, blocks), total)
  {
    hide Chain, Credits, Backwards, Own, InOrder;
    SendKeepsOrder(t, buf, credits, blocks);
    if credits <= t.free {
      var w := Wqe(t.head, blocks, credits, buf);
      var r := Send(t, buf, credits, blocks);
      OneMore(t.inflight, w, Tail(t));
      assert r.inflight == t.inflight + [w] && Tail(r) == Tail(t);
      assert multiset(r.sent) == multiset(t.sent) + multiset(Own(w));
    }
  }

  lemma OneMore(ws: seq<Wqe>, w: Wqe, start: nat)
    requires Chain(ws, start, w.pos) && 1 <= w.blocks <= w.credits
    ensures Chain(ws + [w], start, w.pos + w.blocks)
    ensures Credits(ws + [w]) == Credits(ws) + w.credits
    ensures multiset(Backwards(ws + [w])) == multiset(Own(w)) + multiset(Backwards(ws))
  {
    hide Own;
    assert Chain([w][1..], w.pos + w.blocks, w.pos + w.blocks);
    ChainConcat(ws, [w], start, w.pos, w.pos + w.blocks);
    CreditsConcat(ws, [w]);
    assert Credits([w][1..]) == 0;
    assert (ws + [w])[..|ws|] == ws;
  }

  lemma RetireKeeps(t: Tx, total: nat, n: nat)
    requires Inv(t, total) && n <= |t.inflight|
    ensures var r := RetireTo(t, n);
            && Chain(r.inflight, Tail(r), r.head) && r.free + Credits(r.inflight) == total
            && multiset(r.sent) == multiset(r.returned) + multiset(Backwards(r.inflight))
  {
    hide InOrder, Shift, Credits, Backwards;
    var mid := ChainSplit(t.inflight, n, Tail(t), t.head);
    var early, late := t.inflight[..n], t.inflight[n..];
    assert t.inflight == early + late;
    CreditsConcat(early, late);
    BackwardsConcat(early, late);
  }

  lemma ActKeeps(t: Tx, total: nat, k: nat)
    requires Inv(t, total) && k < |t.ready|
    ensures Inv(Act(t, k), total)
  {
    hide Chain, Credits, Backwards, Shift;
    ActKeepsOrder(t, k);
    RetireKeeps(t, total, t.ready[k].idx + 1);
  }

  lemma RetireMarkKeeps(t: Tx, total: nat, k: nat)
    requires Inv(t, total) && k < |t.ready|
    ensures Inv(Retire(t, k), total)
  {
    hide Chain, Credits, Backwards, Shift;
    ActKeepsOrder(t, k);
    RetireKeeps(t, total, t.ready[k].idx + 1);
  }

  lemma NextKeeps(t: Tx, total: nat, s: Step)
    requires Inv(t, total) && Possible(t, s)
    ensures Inv(Next(t, s), total)
  {
    hide Chain, Credits, Backwards, Own;
    match s
    case Post(buf, credits, blocks) => SendKeeps(t, total, buf, credits, blocks);
    case Complete(m) =>
    case Poll => if Drained(t.ready) > 0 { ActKeeps(t, total, Drained(t.ready) - 1); }
  }

  /**
   Over every run credits and buffers are conserved and completions stay in order; the ring is never
   overrun, nor is a completion queue with as many entries as there are credits.
   */
  lemma {:induction false} RunKeeps(t: Tx, total: nat, steps: seq<Step>)
    requires Inv(t, total) && Feasible(t, steps)
    ensures var r := Run(t, steps);
            && Inv(r, total) && Tail(r) <= r.head <= Tail(r) + total && |r.ready| <= |r.inflight| <= total
    decreases |steps|
  {
    hide Inv, Next, Possible, Tail;
    if steps == [] {
      RingBounded(t, total);
      ReadyBounded(t, total);
    } else {
      NextKeeps(t, total, steps[0]);
      RunKeeps(Next(t, steps[0]), total, steps[1..]);
    }
  }

  lemma RingBounded(t: Tx, total: nat)
    requires Inv(t, total)
    ensures Tail(t) <= t.head <= Tail(t) + total
  {
    ChainSpan(t.inflight, Tail(t), t.head);
  }

  /** Once a completion for the newest work request is polled everything handed over has come back, once. */
  lemma AllReturned(t: Tx, total: nat)
    requires Inv(t, total) && t.inflight == []
    ensures t.free == total && multiset(t.returned) == multiset(t.sent)
  {
    assert multiset(Backwards(t.inflight)) == multiset{};
  }

  /** A work request is posted, and its buffer handed over, exactly when there are credits for all of it. */
  lemma SendAllOrNone(t: Tx, buf: Buf, credits: nat, blocks: nat)
    ensures var r := Send(t, buf, credits, blocks);
            && (credits > t.free <==> r == t)
            && (credits <= t.free ==>
                && |r.inflight| == |t.inflight| + 1 && r.inflight[..|t.inflight|] == t.inflight
                && r.inflight[|t.inflight|] == Wqe(t.head, blocks, credits, buf)
                && r.free + credits == t.free && r.head == t.head + blocks
                && r.sent == t.sent + (if buf == 0 then [] else [buf]))
  {
    var r := Send(t, buf, credits, blocks);
    assert credits <= t.free ==> |r.inflight| != |t.inflight|;
  }

  // ---------- failed completions ----------

  /** The buffers of the work requests whose completions failed, in order. */
  function FailedBufs(ms: seq<Mark>, ws: seq<Wqe>): seq<Buf>
  {
    if ms == [] then []
    else (if ms[0].error && ms[0].idx < |ws| then [ws[ms[0].idx].buf] else []) + FailedBufs(ms[1..], ws)
  }

  lemma FailedIs(ms: seq<Mark>, ws: seq<Wqe>)
    ensures FailedBufs([], ws) == []
    ensures ms != [] ==>
            FailedBufs(ms, ws) == (if ms[0].error && ms[0].idx < |ws| then [ws[ms[0].idx].buf] else []) + FailedBufs(ms[1..], ws)
  {
  }

  lemma {:induction false} FailedConcat(a: seq<Mark>, b: seq<Mark>, ws: seq<Wqe>)
    ensures FailedBufs(a + b, ws) == FailedBufs(a, ws) + FailedBufs(b, ws)
  {
    hide FailedBufs;
    FailedIs(a, ws);
    FailedIs(a + b, ws);
    if a == [] {
      assert a + b == b;
    } else {
      FailedConcat(a[1..], b, ws);
      assert (a + b)[1..] == a[1..] + b;
    }
  }

  lemma {:induction false} FailedMore(ms: seq<Mark>, ws: seq<Wqe>, w: Wqe)
    requires forall i :: 0 <= i < |ms| ==> ms[i].idx < |ws|
    ensures FailedBufs(ms, ws + [w]) == FailedBufs(ms, ws)
  {
    if ms != [] { FailedMore(ms[1..], ws, w); }
  }

  lemma {:induction false} FailedShift(ms: seq<Mark>, ws: seq<Wqe>, n: nat)
    requires n <= |ws| && forall i :: 0 <= i < |ms| ==> n <= ms[i].idx < |ws|
    ensures FailedBufs(Shift(ms, n), ws[n..]) == FailedBufs(ms, ws)
  {
    if ms != [] {
      FailedShift(ms[1..], ws, n);
      assert Shift(ms, n)[1..] == Shift(ms[1..], n);
    }
  }

  lemma {:induction false} NoneFailed(ms: seq<Mark>, ws: seq<Wqe>)
    requires forall i :: 0 <= i < |ms| ==> !ms[i].error
    ensures FailedBufs(ms, ws) == []
  {
    if ms != [] { NoneFailed(ms[1..], ws); }
  }

  /** What a poll steps over without acting on it has not failed. */
  lemma DrainedFailed(t: Tx)
    requires InOrder(t) && Drained(t.ready) > 0
    ensures var n := Drained(t.ready);
            FailedBufs(t.ready[..n], t.inflight) ==
              if t.ready[n - 1].error then [t.inflight[t.ready[n - 1].idx].buf] else []
  {
    var n := Drained(t.ready);
    DrainedStops(t.ready);
    var early, last := t.ready[..n - 1], t.ready[n - 1];
    assert t.ready[..n] == early + [last];
    FailedConcat(early, [last], t.inflight);
    NoneFailed(early, t.inflight);
    assert [last][1..] == [];
    assert FailedBufs([last][1..], t.inflight) == [];
  }

  /** A poll flags exactly the buffers of the failed completions it takes. */
  lemma PollFlags(t: Tx)
    requires InOrder(t)
    ensures var r := PollCoalesced(t);
            && r.flagged == t.flagged + FailedBufs(t.ready[..Drained(t.ready)], t.inflight)
            && r.flagged + FailedBufs(r.ready, r.inflight) == t.flagged + FailedBufs(t.ready, t.inflight)
  {
    hide FailedBufs, Shift, Drained;
    var n := Drained(t.ready);
    if n == 0 {
      assert t.ready[..0] == [];
      FailedIs([], t.inflight);
    } else {
      DrainedFailed(t);
      assert t.ready == t.ready[..n] + t.ready[n..];
      FailedConcat(t.ready[..n], t.ready[n..], t.inflight);
      FailedShift(t.ready[n..], t.inflight, t.ready[n - 1].idx + 1);
      var now, later := FailedBufs(t.ready[..n], t.inflight), FailedBufs(t.ready[n..], t.inflight);
      assert t.flagged + now + later == t.flagged + (now + later);
    }
  }

  /** The buffers whose completions the device reports as failed during a run, in order. */
  ghost function FailuresReported(t: Tx, steps: seq<Step>): seq<Buf>
    requires Feasible(t, steps)
    decreases |steps|
  {
    if steps == [] then []
    else
      (if steps[0].Complete? && steps[0].mark.error then [t.inflight[steps[0].mark.idx].buf] else []) +
      FailuresReported(Next(t, steps[0]), steps[1..])
  }

  lemma NextFlags(t: Tx, s: Step)
    requires InOrder(t) && Possible(t, s)
    ensures var r := Next(t, s);
            r.flagged + FailedBufs(r.ready, r.inflight) ==
              t.flagged + FailedBufs(t.ready, t.inflight) +
              (if s.Complete? && s.mark.error then [t.inflight[s.mark.idx].buf] else [])
  {
    hide PollCoalesced;
    match s
    case Post(buf, credits, blocks) =>
      FailedMore(t.ready, t.inflight, Wqe(t.head, blocks, credits, buf));
    case Complete(m) =>
      FailedConcat(t.ready, [m], t.inflight);
      assert [m][1..] == [];
      assert FailedBufs([m][1..], t.inflight) == [];
    case Poll => PollFlags(t);
  }

  /**
   Over every run each failed completion marks the buffer of its work request, once and in order: what
   is flagged, with what still waits, is what was before and what the device reported since.
   */
  lemma {:induction false} RunFlags(t: Tx, total: nat, steps: seq<Step>)
    requires Inv(t, total) && Feasible(t, steps)
    ensures var r := Run(t, steps);
            r.flagged + FailedBufs(r.ready, r.inflight) == t.flagged + FailedBufs(t.ready, t.inflight) + FailuresReported(t, steps)
    decreases |steps|
  {
    hide Inv, Next, Possible, FailedBufs;
    if steps != [] {
      NextKeeps(t, total, steps[0]);
      NextFlags(t, steps[0]);
      RunFlags(Next(t, steps[0]), total, steps[1..]);
    }
  }
}
