/**
 The strides that wait.  The background drain of a striding queue hands TCP up
 at once and lets everything else wait in the receive queue; the next poll hands
 the waiting strides up first, oldest first.  A waiting stride is outstanding
 like any other, only its holder is the queue itself.
 */
module StrideQueue {
  import opened Buffers
  import opened ReceivePath
  import opened StridePath

  datatype Sq = Sq(q: Strq, waiting: seq<Buf>)      // stride descriptors, oldest first

  /** What waits is outstanding: its descriptor is not free and its strides are not reused. */
  ghost predicate Waits(out: seq<Stride>, waiting: seq<Buf>)
  {
    multiset(waiting) <= multiset(Descs(out))
  }

  ghost predicate SqInv(c: Config, g: Geometry, s: Sq)
  {
    StrideInv(c, g, s.q) && Waits(s.q.out, s.waiting)
  }

  /** The outstanding stride with a descriptor. */
  function IndexOf(out: seq<Stride>, d: Buf): (i: nat)
    ensures i <= |out| && (i < |out| ==> out[i].desc == d)
    ensures d in Descs(out) ==> i < |out|
  {
    if out == [] then 0 else if out[0].desc == d then 0 else 1 + IndexOf(out[1..], d)
  }

  // ---------- operations ----------

  /** Offer the stride that has waited longest; a refused one comes back. */
  function OfferFront(g: Geometry, s: Sq, accept: bool): Sq
    requires s.waiting != []
  {
    var i := IndexOf(s.q.out, s.waiting[0]);
    Sq(if accept || i == |s.q.out| then s.q else Return(g, s.q, i, true), s.waiting[1..])
  }

  /** Hand waiting strides up, at most one per entry of `accepts`. */
  function ProcessWaiting(g: Geometry, s: Sq, accepts: seq<bool>): (nat, Sq)
    decreases |accepts|
  {
    if s.waiting == [] || accepts == [] then (0, s)
    else
      var (n, r) := ProcessWaiting(g, OfferFront(g, s, accepts[0]), accepts[1..]);
      (n + 1, r)
  }

  ghost function QueuePoll(c: Config, g: Geometry, s: Sq, accepts: seq<bool>, es: seq<StrideChoice>, max: nat,
                           extra: seq<Buf>): Sq
  {
    var (n, s1) := ProcessWaiting(g, s, accepts);
    if n == |accepts| then s1 else s1.(q := StridePoll(c, g, s1.q, es, max, extra))
  }

  /** What the environment decides while one completion is drained. */
  datatype DrainChoice = DrainChoice(tcp: bool, accept: bool, strides: seq<Buf>, buffers: seq<Buf>)

  /** A stride that is not TCP is not offered yet. */
  function Deferred(e: DrainChoice): StrideChoice
  {
    StrideChoice(!e.tcp || e.accept, e.strides, e.buffers)
  }

  /** One turn of the drain. */
  ghost function DrainTurn(c: Config, g: Geometry, s: Sq, e: DrainChoice): (Polled, Sq)
  {
    var (p, q1) := Turn(c, g, s.q, Deferred(e));
    (p, Sq(q1, if p.stride && !e.tcp && q1.out != [] then s.waiting + [q1.out[|q1.out| - 1].desc] else s.waiting))
  }

  ghost function QueueDrain(c: Config, g: Geometry, s: Sq, es: seq<DrainChoice>, max: nat): Sq
    decreases |es|
  {
    if es == [] || max == 0 then s
    else
      var (p, s1) := DrainTurn(c, g, s, es[0]);
      if p.stride then QueueDrain(c, g, s1, es[1..], max - 1)
      else if p.wqe then QueueDrain(c, g, s1, es[1..], max)
      else s1
  }

  /**
   One turn of emptying a queue that goes down.  Recycling enters debt but does not pay it, and takes
   every stride back at once; otherwise no debt is entered and the strides wait.
   */
  function DownTurn(g: Geometry, s: Sq, extra: seq<Buf>, recycle: bool): (Polled, Sq)
  {
    var (p, q1) := StridePath.Poll(g, s.q, extra);
    if recycle then
      var q2 := if p.wqe then q1.(rx := q1.rx.(debt := q1.rx.debt + 1)) else q1;
      (p, s.(q := if p.stride then Offer(g, q2, false) else q2))
    else
      (p, Sq(q1, if p.stride && q1.out != [] then s.waiting + [q1.out[|q1.out| - 1].desc] else s.waiting))
  }

  /** Empty the queue; also how many ring entries that takes out of the accounts. */
  function GoDown(g: Geometry, s: Sq, extras: seq<seq<Buf>>, recycle: bool): (nat, Sq)
    decreases |extras|
  {
    if extras == [] then (0, s)
    else
      var (p, s1) := DownTurn(g, s, extras[0], recycle);
      if !p.stride && !p.wqe then (0, s1)
      else
        var (n, r) := GoDown(g, s1, extras[1..], recycle);
        (n + (if p.wqe && !recycle then 1 else 0), r)
  }

  /** The upper layer returns a stride it holds. */
  function QueueReturn(g: Geometry, s: Sq, i: nat, viaQueue: bool): Sq
  {
    if i < |s.q.out| && s.q.out[i].desc !in s.waiting then s.(q := Return(g, s.q, i, viaQueue)) else s
  }

  datatype StrideOp =
    | OpCut(k: nat, filler: bool)
    | OpPoll(accepts: seq<bool>, es: seq<StrideChoice>, max: nat, extra: seq<Buf>)
    | OpDrain(ds: seq<DrainChoice>, max: nat)
    | OpDown(extras: seq<seq<Buf>>, recycle: bool)
    | OpReturn(i: nat, viaQueue: bool)
    | OpReturnSpare

  ghost function StrideStep(c: Config, g: Geometry, s: Sq, op: StrideOp): Sq
  {
    match op
    case OpCut(k, filler) => s.(q := HwCut(g, s.q, k, filler))
    case OpPoll(accepts, es, max, extra) => QueuePoll(c, g, s, accepts, es, max, extra)
    case OpDrain(ds, max) => QueueDrain(c, g, s, ds, max)
    case OpDown(extras, recycle) => GoDown(g, s, extras, recycle).1
    case OpReturn(i, viaQueue) => QueueReturn(g, s, i, viaQueue)
    case OpReturnSpare => s.(q := s.q.(rx := ReturnExtra(c, s.q.rx)))
  }

  ghost function StrideRun(c: Config, g: Geometry, s: Sq, ops: seq<StrideOp>): Sq
    decreases |ops|
  {
    if ops == [] then s else StrideRun(c, g, StrideStep(c, g, s, ops[0]), ops[1..])
  }

  /** The ring entries a run takes out of the accounts. */
  function LostBy(g: Geometry, s: Sq, op: StrideOp): nat
  {
    if op.OpDown? then GoDown(g, s, op.extras, op.recycle).0 else 0
  }

  ghost function Lost(c: Config, g: Geometry, s: Sq, ops: seq<StrideOp>): nat
    decreases |ops|
  {
    if ops == [] then 0 else LostBy(g, s, ops[0]) + Lost(c, g, StrideStep(c, g, s, ops[0]), ops[1..])
  }

  // ---------- what every operation keeps ----------

  /** `r` keeps the invariant, no buffer is gone, and the ring owes `n` entries less. */
  ghost predicate CarriesBut(c: Config, g: Geometry, q: Strq, r: Strq, n: nat)
  {
    StrideInv(c, g, r) && Owed(r.rx) == Owed(q.rx) - n && q.rx.created <= r.rx.created
  }

  /** Returning a stride takes exactly its descriptor off the outstanding ones. */
  lemma ReturnOut(g: Geometry, q: Strq, i: nat, viaQueue: bool)
    requires i < |q.out|
    ensures Return(g, q, i, viaQueue).out == q.out[..i] + q.out[i + 1..]
    ensures multiset(Descs(q.out)) == multiset(Descs(Return(g, q, i, viaQueue).out)) + multiset{q.out[i].desc}
  {
    hide Descs, Reclaim;
    DescsWithout(q.out, i);
  }

  lemma OfferFrontKeeps(c: Config, g: Geometry, s: Sq, accept: bool)
    requires SqInv(c, g, s) && s.waiting != []
    ensures var r := OfferFront(g, s, accept);
            && SqInv(c, g, r) && Carries(c, g, s.q, r.q)
            && (accept ==> r.q.out == s.q.out)
            && (!accept ==> multiset(Descs(r.q.out)) + multiset{s.waiting[0]} == multiset(Descs(s.q.out)))
  {
    hide StrideInv, Return, Descs, Owed;
    var d, i := s.waiting[0], IndexOf(s.q.out, s.waiting[0]);
    PopContents(s.waiting);
    MemberCount(Descs(s.q.out), d);
    assert multiset(s.waiting)[d] > 0 && i < |s.q.out|;
    if !accept { RefuseFront(c, g, s, i); }
  }

  lemma RefuseFront(c: Config, g: Geometry, s: Sq, i: nat)
    requires SqInv(c, g, s) && s.waiting != [] && i < |s.q.out| && s.q.out[i].desc == s.waiting[0]
    ensures var r := Return(g, s.q, i, true);
            && StrideInv(c, g, r) && Carries(c, g, s.q, r) && Waits(r.out, s.waiting[1..])
            && multiset(Descs(r.out)) + multiset{s.waiting[0]} == multiset(Descs(s.q.out))
  {
    hide StrideInv, Return, Descs, Owed;
    PopContents(s.waiting);
    ReturnKeeps(c, g, s.q, i, true);
    ReturnOut(g, s.q, i, true);
    OneLess(multiset(s.waiting), multiset(Descs(s.q.out)), s.waiting[0]);
    assert multiset(s.waiting[1..]) == multiset(s.waiting) - multiset{s.waiting[0]};
    assert multiset(Descs(Return(g, s.q, i, true).out)) == multiset(Descs(s.q.out)) - multiset{s.waiting[0]};
  }

  lemma OneLess(a: multiset<Buf>, b: multiset<Buf>, d: Buf)
    requires a <= b
    ensures a - multiset{d} <= b - multiset{d}
  {
  }

  /** Waiting strides are handed up first come, first served; exactly the refused ones come back. */
  lemma {:induction false} ProcessWaitingKeeps(c: Config, g: Geometry, s: Sq, accepts: seq<bool>)
    requires SqInv(c, g, s)
    ensures var (n, r) := ProcessWaiting(g, s, accepts);
            && SqInv(c, g, r) && Carries(c, g, s.q, r.q)
            && n == (if |accepts| < |s.waiting| then |accepts| else |s.waiting|) && r.waiting == s.waiting[n..]
            && multiset(Descs(r.q.out)) + multiset(Offered(s.waiting, accepts, false)) == multiset(Descs(s.q.out))
    decreases |accepts|
  {
    hide SqInv, OfferFront, Offered, Descs, StrideInv, Owed;
    if s.waiting == [] || accepts == [] {
      Stays(c, g, s);
      NoneRefused(s, accepts);
    } else {
      var s1 := OfferFront(g, s, accepts[0]);
      OfferFrontKeeps(c, g, s, accepts[0]);
      assert s1.waiting == s.waiting[1..] by { FrontGone(g, s, accepts[0]); }
      ProcessWaitingKeeps(c, g, s1, accepts[1..]);
      var (n, r) := ProcessWaiting(g, s1, accepts[1..]);
      assert s.waiting[1..][n..] == s.waiting[n + 1..];
      RefusedStep(multiset(Descs(s.q.out)), multiset(Descs(s1.q.out)), multiset(Descs(r.q.out)), s.waiting, accepts);
    }
  }

  lemma RefusedStep(all: multiset<Buf>, now: multiset<Buf>, end: multiset<Buf>, waiting: seq<Buf>, accepts: seq<bool>)
    requires waiting != [] && accepts != []
    requires all == if accepts[0] then now else now + multiset{waiting[0]}
    requires now == end + multiset(Offered(waiting[1..], accepts[1..], false))
    ensures all == end + multiset(Offered(waiting, accepts, false))
  {
    hide Offered;
    OfferedIs(waiting, accepts, false);
    PushContents(Offered(waiting[1..], accepts[1..], false), waiting[0]);
  }

  lemma NoneRefused(s: Sq, accepts: seq<bool>)
    requires s.waiting == [] || accepts == []
    ensures Offered(s.waiting, accepts, false) == [] && s.waiting[0..] == s.waiting
  {
  }

  lemma FrontGone(g: Geometry, s: Sq, accept: bool)
    requires s.waiting != []
    ensures OfferFront(g, s, accept).waiting == s.waiting[1..]
  {
  }

  lemma Stays(c: Config, g: Geometry, s: Sq)
    requires SqInv(c, g, s)
    ensures Carries(c, g, s.q, s.q)
  {
  }

  /** What the outstanding strides are after a turn: a new one at the end, or the same. */
  lemma TurnOut(c: Config, g: Geometry, q: Strq, e: StrideChoice)
    requires StrideInv(c, g, q)
    ensures var (p, r) := Turn(c, g, q, e);
            && (r.out == q.out || (|r.out| == |q.out| + 1 && r.out[..|q.out|] == q.out))
            && (p.stride && e.accept ==> |r.out| == |q.out| + 1 && r.out[..|q.out|] == q.out)
  {
    hide StrideInv, CompensateFailed, Reclaim;
    var (p, s1) := StridePath.Poll(g, q, e.strides);
    PollOut(g, q, e.strides);
    var s2 := if p.wqe then StridePath.Charge(c, s1, e.buffers) else s1;
    assert s2.out == s1.out;
    if p.stride && !e.accept {
      ReturnOut(g, s2, |s2.out| - 1, true);
      assert s2.out[..|q.out|] == q.out;
    }
  }

  lemma PollOut(g: Geometry, q: Strq, extra: seq<Buf>)
    ensures var (p, r) := StridePath.Poll(g, q, extra);
            if p.stride then |r.out| == |q.out| + 1 && r.out[..|q.out|] == q.out else r.out == q.out
  {
    hide Reclaim;
    if q.rx.posted != [] {
      var s1 := Reserve(g, SetHot(g, q), extra);
      if s1.hotStride != 0 && s1.cuts != [] {
        var s2 := HandOut(g, s1);
        if s1.cuts[0].filler {
          ReturnOut(g, s2, |s1.out|, true);
        }
      }
    }
  }

  lemma WaitsMore(out: seq<Stride>, more: seq<Stride>, waiting: seq<Buf>)
    requires Waits(out, waiting) && |more| == |out| + 1 && more[..|out|] == out
    ensures Waits(more, waiting) && Waits(more, waiting + [more[|out|].desc])
  {
    hide Descs;
    var st := more[|out|];
    assert more == out + [st];
    DescsConcat(out, [st]);
    DescsOne(st);
    PushContents(Descs(out), st.desc);
    PushContents(waiting, st.desc);
  }

  lemma DrainTurnKeeps(c: Config, g: Geometry, s: Sq, e: DrainChoice)
    requires SqInv(c, g, s)
    ensures SqInv(c, g, DrainTurn(c, g, s, e).1) && Carries(c, g, s.q, DrainTurn(c, g, s, e).1.q)
    ensures s.waiting <= DrainTurn(c, g, s, e).1.waiting
  {
    hide StrideInv, Turn, Waits, Owed;
    TurnKeeps(c, g, s.q, Deferred(e));
    TurnOut(c, g, s.q, Deferred(e));
    var q1 := Turn(c, g, s.q, Deferred(e)).1;
    if q1.out != s.q.out {
      WaitsMore(s.q.out, q1.out, s.waiting);
    }
  }

  /**
   The stride of a drained completion without the filler mark: TCP goes up at once, if it is accepted;
   anything else is outstanding and waits behind what waited before.
   */
  lemma DrainTurnDelivers(c: Config, g: Geometry, s: Sq, e: DrainChoice)
    requires SqInv(c, g, s)
    requires s.q.rx.posted != [] && s.q.cuts != [] && NextDesc(g, s.q, e.strides) != 0
    ensures var r := DrainTurn(c, g, s, e).1;
            var now := [Span(s.q.rx.posted[0], s.q.done, s.q.cuts[0].k)];
            && Spans(r.q.out) == Spans(s.q.out) + (if !s.q.cuts[0].filler && (!e.tcp || e.accept) then now else [])
            && (s.q.cuts[0].filler || e.tcp ==> r.waiting == s.waiting)
            && (!s.q.cuts[0].filler && !e.tcp ==>
                |r.q.out| == |s.q.out| + 1 && r.waiting == s.waiting + [r.q.out[|s.q.out|].desc])
  {
    hide StrideInv, Turn, NextDesc, Spans;
    TurnHandsOut(c, g, s.q, Deferred(e));
    TurnOut(c, g, s.q, Deferred(e));
  }

  /** What is drained waits behind what waited before. */
  lemma {:induction false} QueueDrainKeeps(c: Config, g: Geometry, s: Sq, es: seq<DrainChoice>, max: nat)
    requires SqInv(c, g, s)
    ensures SqInv(c, g, QueueDrain(c, g, s, es, max)) && Carries(c, g, s.q, QueueDrain(c, g, s, es, max).q)
    ensures s.waiting <= QueueDrain(c, g, s, es, max).waiting
    decreases |es|
  {
    hide SqInv, DrainTurn;
    if es == [] || max == 0 {
      Stays(c, g, s);
    } else {
      DrainTurnKeeps(c, g, s, es[0]);
      var (p, s1) := DrainTurn(c, g, s, es[0]);
      if p.stride { QueueDrainKeeps(c, g, s1, es[1..], max - 1); }
      else if p.wqe { QueueDrainKeeps(c, g, s1, es[1..], max); }
    }
  }

  lemma {:induction false} TurnsWait(c: Config, g: Geometry, q: Strq, es: seq<StrideChoice>, max: nat, waiting: seq<Buf>)
    requires StrideInv(c, g, q) && Waits(q.out, waiting)
    ensures Waits(Turns(c, g, q, es, max).1.out, waiting)
    decreases |es|
  {
    hide StrideInv, Turn, Waits;
    if es != [] && max > 0 {
      TurnKeeps(c, g, q, es[0]);
      TurnOut(c, g, q, es[0]);
      var (p, q1) := Turn(c, g, q, es[0]);
      if q1.out != q.out { WaitsMore(q.out, q1.out, waiting); }
      if p.stride { TurnsWait(c, g, q1, es[1..], max - 1, waiting); }
      else if p.wqe { TurnsWait(c, g, q1, es[1..], max, waiting); }
    }
  }

  lemma QueuePollKeeps(c: Config, g: Geometry, s: Sq, accepts: seq<bool>, es: seq<StrideChoice>, max: nat,
                       extra: seq<Buf>)
    requires SqInv(c, g, s)
    ensures var r := QueuePoll(c, g, s, accepts, es, max, extra);
            SqInv(c, g, r) && Carries(c, g, s.q, r.q)
  {
    hide StrideInv, Waits, ProcessWaiting, Turns, CompensateFailed, Owed;
    ProcessWaitingKeeps(c, g, s, accepts);
    var s1 := ProcessWaiting(g, s, accepts).1;
    StridePollKeeps(c, g, s1.q, es, max, extra);
    TurnsWait(c, g, s1.q, es, max, s1.waiting);
  }

  lemma QueueReturnKeeps(c: Config, g: Geometry, s: Sq, i: nat, viaQueue: bool)
    requires SqInv(c, g, s)
    ensures SqInv(c, g, QueueReturn(g, s, i, viaQueue)) && Carries(c, g, s.q, QueueReturn(g, s, i, viaQueue).q)
  {
    hide StrideInv, Return, Descs, Owed;
    if i < |s.q.out| && s.q.out[i].desc !in s.waiting {
      ReturnKeeps(c, g, s.q, i, viaQueue);
      ReturnOut(g, s.q, i, viaQueue);
      MemberCount(s.waiting, s.q.out[i].desc);
    }
  }

  lemma DownTurnKeeps(c: Config, g: Geometry, s: Sq, extra: seq<Buf>, recycle: bool)
    requires SqInv(c, g, s)
    ensures var (p, r) := DownTurn(g, s, extra, recycle);
            && SqInv(c, g, r) && CarriesBut(c, g, s.q, r.q, if p.wqe && !recycle then 1 else 0)
            && s.waiting <= r.waiting && (recycle ==> r.waiting == s.waiting && r.q.out == s.q.out)
            && (p.stride && !recycle ==>
                |r.q.out| == |s.q.out| + 1 && r.waiting == s.waiting + [r.q.out[|s.q.out|].desc])
  {
    hide StrideInv, StridePath.Poll, Waits, Offer, Owed;
    PollKeeps(c, g, s.q, extra);
    PollOut(g, s.q, extra);
    var (p, q1) := StridePath.Poll(g, s.q, extra);
    if p.stride {
      WaitsMore(s.q.out, q1.out, s.waiting);
    }
    if recycle { RecycledTurn(c, g, s.q, p, q1); }
  }

  /** Recycling restores the entry as debt, and takes the new stride back. */
  lemma RecycledTurn(c: Config, g: Geometry, q: Strq, p: Polled, q1: Strq)
    requires StrideInv(c, g, q1) && (p.wqe ==> Owed(q1.rx) < c.num)
    requires if p.stride then |q1.out| == |q.out| + 1 && q1.out[..|q.out|] == q.out else q1.out == q.out
    ensures var q2 := if p.wqe then q1.(rx := q1.rx.(debt := q1.rx.debt + 1)) else q1;
            var r := if p.stride then Offer(g, q2, false) else q2;
            && StrideInv(c, g, r) && Owed(r.rx) == Owed(q1.rx) + (if p.wqe then 1 else 0)
            && r.rx.created == q1.rx.created && r.out == q.out
  {
    hide StrideInv, Return;
    if p.wqe { OweKeeps(c, g, q1); }
    var q2 := if p.wqe then q1.(rx := q1.rx.(debt := q1.rx.debt + 1)) else q1;
    if p.stride {
      ReturnKeeps(c, g, q2, |q.out|, true);
      ReturnOut(g, q2, |q.out|, true);
      assert q2.out[..|q.out|] + q2.out[|q.out| + 1..] == q.out;
    }
  }

  /** A queue that goes down keeps its invariant; without recycling it loses one entry for each completed. */
  lemma {:induction false} GoDownKeeps(c: Config, g: Geometry, s: Sq, extras: seq<seq<Buf>>, recycle: bool)
    requires SqInv(c, g, s)
    ensures var (n, r) := GoDown(g, s, extras, recycle);
            && SqInv(c, g, r) && CarriesBut(c, g, s.q, r.q, n) && s.waiting <= r.waiting
            && (recycle ==> n == 0 && r.waiting == s.waiting)
    decreases |extras|
  {
    hide StrideInv, Waits, DownTurn;
    if extras != [] {
      DownTurnKeeps(c, g, s, extras[0], recycle);
      var (p, s1) := DownTurn(g, s, extras[0], recycle);
      if p.stride || p.wqe { GoDownKeeps(c, g, s1, extras[1..], recycle); }
    }
  }

  lemma StrideStepKeeps(c: Config, g: Geometry, s: Sq, op: StrideOp)
    requires SqInv(c, g, s)
    ensures SqInv(c, g, StrideStep(c, g, s, op))
    ensures CarriesBut(c, g, s.q, StrideStep(c, g, s, op).q, LostBy(g, s, op))
  {
    hide StrideInv, Waits, QueuePoll, QueueDrain, GoDown, QueueReturn, ReturnExtra, Owed, HwCut;
    match op
    case OpCut(k, filler) => CutKeeps(c, g, s.q, k, filler); CutOut(g, s.q, k, filler);
    case OpPoll(accepts, es, max, extra) => QueuePollKeeps(c, g, s, accepts, es, max, extra);
    case OpDrain(ds, max) => QueueDrainKeeps(c, g, s, ds, max);
    case OpDown(extras, recycle) => GoDownKeeps(c, g, s, extras, recycle);
    case OpReturn(i, viaQueue) => QueueReturnKeeps(c, g, s, i, viaQueue);
    case OpReturnSpare => ReturnSpareKeeps(c, g, s.q);
  }

  lemma CutOut(g: Geometry, q: Strq, k: nat, filler: bool)
    ensures HwCut(g, q, k, filler).out == q.out
  {
  }

  /**
   Through every run of completions, polls, drains, cleanups and returns in any order: the strides
   handed out of a buffer never overlap and stay inside it, its count is exact, the ring owes what it
   owed less the entries lost to cleanups, no buffer or descriptor is lost or in two places, the
   completions that wait never outgrow a queue of `strides` entries per ring entry, and a stride that
   waits stays outstanding until a poll hands it up.
   */
  lemma {:induction false} StrideRunKeeps(c: Config, g: Geometry, s: Sq, ops: seq<StrideOp>)
    requires SqInv(c, g, s)
    ensures var r := StrideRun(c, g, s, ops);
            && SqInv(c, g, r) && CarriesBut(c, g, s.q, r.q, Lost(c, g, s, ops))
            && |r.q.cuts| <= g.strides * c.num
    decreases |ops|
  {
    hide StrideStep, StrideInv, Owed, Waits, LostBy;
    if ops == [] {
      WaitingBounded(c, g, s.q);
    } else {
      StrideStepKeeps(c, g, s, ops[0]);
      StrideRunKeeps(c, g, StrideStep(c, g, s, ops[0]), ops[1..]);
    }
  }
}
