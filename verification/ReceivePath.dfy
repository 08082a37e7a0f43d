/**
 The receive path of one ring between `add_hqrx` and `del_hqrx`, as a state
 machine over queues of buffers.  A buffer travels: global pool, per-queue
 pool, unposted batch, hardware ring, upper layer, and back.  `debt` counts
 the ring entries that were consumed and not refilled yet.
 */
module ReceivePath {
  import opened Buffers

  /** Ring size, size of a posting batch, refill size, and the keep-the-ring-full option. */
  datatype Config = Config(num: nat, batch: nat, level: nat, keepFull: bool)

  datatype Rx = Rx(
    global: seq<Buf>,         // free list of the global pool, head first
    pool: seq<Buf>,           // free buffers of this queue
    queue: seq<Buf>,          // received and waiting for the upper layer
    pending: seq<Buf>,        // batched work requests, not handed to the hardware yet
    posted: seq<Buf>,         // ring entries, oldest first
    hot: bool,                // the oldest entry has already been read from its slot
    upper: multiset<Buf>,     // held by the upper layer
    debt: int,
    ready: seq<bool>,         // completions not polled yet; true is success
    created: set<Buf>)        // every buffer in existence

  /** All the places a buffer can be in. */
  ghost function Places(s: Rx): multiset<Buf>
  {
    OffRing(s) + OnRing(s)
  }

  ghost function OffRing(s: Rx): multiset<Buf>
  {
    multiset(s.global) + multiset(s.pool) + multiset(s.queue) + s.upper
  }

  ghost function OnRing(s: Rx): multiset<Buf>
  {
    multiset(s.posted + s.pending)
  }

  /** Ring entries that are in use, promised or owed. */
  function Owed(s: Rx): int
  {
    |s.posted| + |s.pending| + s.debt
  }

  /** Replacing the contents of one place, the others staying as they are. */
  lemma Exchange(p: multiset<Buf>, q: multiset<Buf>, r: multiset<Buf>,
                 x: multiset<Buf>, y: multiset<Buf>, x': multiset<Buf>, y': multiset<Buf>)
    requires x + y == x' + y'
    ensures x + p + q + r + y == x' + p + q + r + y'
    ensures p + q + x + r + y == p + q + x' + r + y'
  {
    forall b
      ensures (x + p + q + r + y)[b] == (x' + p + q + r + y')[b]
      ensures (p + q + x + r + y)[b] == (p + q + x' + r + y')[b]
    {
      assert (x + y)[b] == (x' + y')[b];
    }
  }

  /** `hand` is what a running operation holds in local variables. */
  ghost predicate InvWith(c: Config, s: Rx, hand: multiset<Buf>)
  {
    && 1 <= c.batch
    && 0 <= s.debt && Owed(s) <= c.num
    && |s.pending| < c.batch
    && |s.ready| <= |s.posted|
    && (s.hot ==> s.posted != [])
    && OffRing(s) + hand + OnRing(s) == multiset(s.created) && 0 !in s.created
  }

  ghost predicate Inv(c: Config, s: Rx)
  {
    InvWith(c, s, multiset{})
  }

  // ---------- posting ----------

  /** Add a work request to the batch, and hand the whole batch over once it is full. */
  function Post(c: Config, s: Rx, b: Buf): Rx
  {
    if |s.pending| + 1 == c.batch then s.(posted := s.posted + s.pending + [b], pending := [])
    else s.(pending := s.pending + [b])
  }

  function PostList(c: Config, s: Rx, bs: seq<Buf>): Rx
    decreases |bs|
  {
    if bs == [] then s else PostList(c, Post(c, s, bs[0]), bs[1..])
  }

  // ---------- pools ----------

  /** The global pool grows when it can; growth that would repeat a buffer does not happen. */
  ghost function Grow(s: Rx, extra: seq<Buf>): Rx
  {
    if Admissible(extra, s.created)
    then s.(global := extra + s.global, created := s.created + Elements(extra))
    else s
  }

  /** Get `count` buffers from the global pool; `extra` is what the pool creates if it runs short. */
  ghost function GlobalGet(s: Rx, count: nat, extra: seq<Buf>): (Got, Rx)
  {
    var s1 := if |s.global| < count then Grow(s, extra) else s;
    var got := Take(s1.global, count);
    (got, s1.(global := got.free))
  }

  ghost function RequestMore(c: Config, s: Rx, extra: seq<Buf>): (bool, Rx)
  {
    var (got, s1) := GlobalGet(s, c.level, extra);
    if got.Refused? then (false, s1) else (true, s1.(pool := s1.pool + got.taken))
  }

  function ReturnExtra(c: Config, s: Rx): Rx
  {
    if |s.pool| < c.level * 2 then s
    else s.(pool := s.pool[..c.level], global := s.pool[c.level..] + s.global)
  }

  // ---------- compensation ----------

  /** Refill ring entries from the pool, oldest buffer first, as far as debt and pool allow. */
  function PayDebt(c: Config, s: Rx): Rx
  {
    var n := if 0 <= s.debt < |s.pool| then s.debt else |s.pool|;
    PostList(c, s.(pool := s.pool[n..], debt := s.debt - n), s.pool[..n])
  }

  ghost function Compensate(c: Config, s: Rx, extra: seq<Buf>): (bool, Rx)
  {
    if s.pool != [] then (true, PayDebt(c, s))
    else var (ok, s1) := RequestMore(c, s, extra); (ok, if ok then PayDebt(c, s1) else s1)
  }

  ghost function CompensateFailed(c: Config, s: Rx, extra: seq<Buf>): Rx
  {
    if s.debt == 0 then s else Compensate(c, s, extra).1
  }

  /** When no buffer can be found, the received one goes straight back to the ring. */
  ghost function CompensateSuccess(c: Config, s: Rx, b: Buf, extra: seq<Buf>): (bool, Rx)
  {
    var (done, s1) := Compensate(c, s, extra);
    if done then (false, s1)
    else if c.keepFull || s1.debt >= c.num then (true, Post(c, s1, b).(debt := s1.debt - 1))
    else (false, s1)
  }

  // ---------- one received buffer ----------

  function Deliver(s: Rx, b: Buf, accept: bool): Rx
  {
    if accept then s.(upper := s.upper + multiset{b}) else s.(pool := s.pool + [b])
  }

  /** What the environment decides while one buffer is handled. */
  datatype Choice = Choice(accept: bool, tcp: bool, extra: seq<Buf>)

  function PollOne(s: Rx): (Buf, bool, Rx)
  {
    if s.posted == [] then (0, false, s)
    else if s.ready == [] then (0, false, s.(hot := true))
    else (s.posted[0], s.ready[0], s.(posted := s.posted[1..], ready := s.ready[1..], hot := false))
  }

  ghost function Settle(c: Config, s: Rx, b: Buf, e: Choice): (bool, Rx)
  {
    var s1 := s.(debt := s.debt + 1);
    if s1.debt < c.batch then (false, s1) else CompensateSuccess(c, s1, b, e.extra)
  }

  ghost function Handle(c: Config, s: Rx, b: Buf, ok: bool, e: Choice): Rx
  {
    if ok then
      var (reposted, s1) := Settle(c, s, b, e);
      if reposted then s1 else Deliver(s1, b, e.accept)
    else
      var s1 := s.(pool := s.pool + [b], debt := s.debt + 1);
      if s1.debt >= c.batch then CompensateFailed(c, s1, e.extra) else s1
  }

  /** The background drain: TCP goes up at once, the rest waits in the queue. */
  ghost function HandleDrained(c: Config, s: Rx, b: Buf, ok: bool, e: Choice): Rx
  {
    if !ok then s.(pool := s.pool + [b])
    else if e.tcp then
      var (reposted, s1) := Settle(c, s, b, e);
      if reposted then s1 else Deliver(s1, b, e.accept)
    else
      var q := s.queue + [b];
      var (reposted, s1) := Settle(c, s.(queue := q[1..]), q[0], e);
      if reposted then s1 else s1.(queue := [q[0]] + s1.queue)
  }

  // ---------- whole operations ----------

  /** The polling loop; `es` has one entry per allowed iteration. */
  ghost function PollLoop(c: Config, s: Rx, es: seq<Choice>): (nat, Rx)
    decreases |es|
  {
    if es == [] then (0, s)
    else
      var (b, ok, s1) := PollOne(s);
      if b == 0 then (0, s1)
      else
        var (n, s2) := PollLoop(c, Handle(c, s1, b, ok, es[0]), es[1..]);
        (n + 1, s2)
  }

  /** Hand waiting buffers to the upper layer, at most one per entry of `accepts`. */
  function ProcessQueue(s: Rx, accepts: seq<bool>): (nat, Rx)
    decreases |accepts|
  {
    if s.queue == [] || accepts == [] then (0, s)
    else
      var (n, s1) := ProcessQueue(Deliver(s.(queue := s.queue[1..]), s.queue[0], accepts[0]), accepts[1..]);
      (n + 1, s1)
  }

  ghost function PollAndProcess(c: Config, s: Rx, accepts: seq<bool>, es: seq<Choice>, extra: seq<Buf>): Rx
  {
    var (processed, s1) := ProcessQueue(s, accepts);
    if processed == |accepts| then s1
    else
      var (polled, s2) := PollLoop(c, s1, es);
      if polled > 0 then s2 else CompensateFailed(c, s2, extra)
  }

  ghost function Drain(c: Config, s: Rx, es: seq<Choice>): Rx
    decreases |es|
  {
    if es == [] then s
    else
      var (b, ok, s1) := PollOne(s);
      if b == 0 then s1 else Drain(c, HandleDrained(c, s1, b, ok, es[0]), es[1..])
  }

  /** Poll until nothing is ready; successes wait in the queue unless they are recycled at once. */
  function Clean(s: Rx, recycle: bool): Rx
    decreases |s.ready|
  {
    var (b, ok, s1) := PollOne(s);
    if b == 0 || s.ready == [] then s1
    else if ok && !recycle then Clean(s1.(queue := s1.queue + [b]), recycle)
    else Clean(s1.(pool := s1.pool + [b]), recycle)
  }

  /** The upper layer gives back a chain of buffers; a foreign chain goes to the global pool. */
  function Reclaim(s: Rx, chain: seq<Buf>, mine: bool): Rx
  {
    if !(multiset(chain) <= s.upper) then s
    else if mine then s.(upper := s.upper - multiset(chain), pool := s.pool + chain)
    else s.(upper := s.upper - multiset(chain), global := Reversed(chain) + s.global)
  }

  /** The hardware completes the oldest ring entry that is still open. */
  function Complete(s: Rx, ok: bool): Rx
  {
    if |s.ready| < |s.posted| then s.(ready := s.ready + [ok]) else s
  }

  datatype Op =
    | OpComplete(ok: bool)
    | OpPoll(accepts: seq<bool>, es: seq<Choice>, extra: seq<Buf>)
    | OpDrain(es: seq<Choice>)
    | OpClean(recycle: bool)
    | OpReclaim(chain: seq<Buf>, mine: bool)
    | OpReturnExtra

  ghost function Step(c: Config, s: Rx, op: Op): Rx
  {
    match op
    case OpComplete(ok) => Complete(s, ok)
    case OpPoll(accepts, es, extra) => PollAndProcess(c, s, accepts, es, extra)
    case OpDrain(es) => Drain(c, s, es)
    case OpClean(recycle) => Clean(s, recycle)
    case OpReclaim(chain, mine) => Reclaim(s, chain, mine)
    case OpReturnExtra => ReturnExtra(c, s)
  }

  ghost function Run(c: Config, s: Rx, ops: seq<Op>): Rx
    decreases |ops|
  {
    if ops == [] then s else Run(c, Step(c, s, ops[0]), ops[1..])
  }

  /** The initial fill of the ring: batches from the global pool until it is full or refuses. */
  ghost function Fill(c: Config, s: Rx, left: nat, extras: seq<seq<Buf>>): Rx
    requires c.batch >= 1
    decreases left
  {
    if left == 0 then s
    else
      var n := if c.batch > left then left else c.batch;
      var (got, s1) := GlobalGet(s, n, if extras == [] then [] else extras[0]);
      if got.Refused? then s1
      else Fill(c, PostList(c, s1, got.taken), left - n, if extras == [] then [] else extras[1..])
  }

  ghost function Empty(global: seq<Buf>): Rx
  {
    Rx(global, [], [], [], [], false, multiset{}, 0, [], Elements(global))
  }

  // ---------- what every operation keeps ----------

  /** Posting keeps the order: the ring followed by the batch is a queue. */
  lemma {:induction false} PostListInOrder(c: Config, s: Rx, bs: seq<Buf>)
    requires |s.pending| < c.batch
    ensures var r := PostList(c, s, bs);
            && r == s.(posted := r.posted, pending := r.pending)
            && r.posted + r.pending == s.posted + s.pending + bs
            && s.posted <= r.posted
            && |r.pending| < c.batch
    decreases |bs|
  {
    if bs != [] {
      var s1 := Post(c, s, bs[0]);
      PostListInOrder(c, s1, bs[1..]);
      assert s1.posted + s1.pending == s.posted + s.pending + [bs[0]];
      assert s.posted + s.pending + bs == s.posted + s.pending + [bs[0]] + bs[1..];
    }
  }

  lemma PostListKeeps(c: Config, s: Rx, bs: seq<Buf>, hand: multiset<Buf>)
    requires InvWith(c, s, hand + multiset(bs)) && Owed(s) + |bs| <= c.num
    ensures InvWith(c, PostList(c, s, bs), hand)
    ensures Owed(PostList(c, s, bs)) == Owed(s) + |bs|
  {
    PostListInOrder(c, s, bs);
    var r := PostList(c, s, bs);
    assert |r.posted + r.pending| == |s.posted + s.pending + bs|;
    assert OnRing(r) == OnRing(s) + multiset(bs);
    assert OffRing(r) == OffRing(s);
  }

  lemma PayDebtKeeps(c: Config, s: Rx, hand: multiset<Buf>)
    requires InvWith(c, s, hand)
    ensures InvWith(c, PayDebt(c, s), hand)
    ensures Owed(PayDebt(c, s)) == Owed(s) && PayDebt(c, s).created == s.created && PayDebt(c, s).ready == s.ready
  {
    hide PostList;
    var n := if 0 <= s.debt < |s.pool| then s.debt else |s.pool|;
    var front, s1 := s.pool[..n], s.(pool := s.pool[n..], debt := s.debt - n);
    SplitContents(s.pool, n);
    assert OffRing(s) == OffRing(s1) + multiset(front);
    assert OnRing(s) == OnRing(s1);
    PostListKeeps(c, s1, front, hand);
    PostListInOrder(c, s1, front);
  }

  /** The oldest buffers of the pool are posted first, as many as are owed or there are. */
  lemma PayDebtInOrder(c: Config, s: Rx)
    requires |s.pending| < c.batch && s.debt >= 0
    ensures var r, n := PayDebt(c, s), if s.debt < |s.pool| then s.debt else |s.pool|;
            && r.posted + r.pending == s.posted + s.pending + s.pool[..n]
            && r.pool == s.pool[n..] && r.debt == s.debt - n
            && r == s.(posted := r.posted, pending := r.pending, pool := r.pool, debt := r.debt)
  {
    hide PostList;
    var n := if s.debt < |s.pool| then s.debt else |s.pool|;
    PostListInOrder(c, s.(pool := s.pool[n..], debt := s.debt - n), s.pool[..n]);
  }

  lemma GrowKeeps(c: Config, s: Rx, extra: seq<Buf>, hand: multiset<Buf>)
    requires InvWith(c, s, hand)
    ensures InvWith(c, Grow(s, extra), hand) && s.created <= Grow(s, extra).created
  {
    var r := Grow(s, extra);
    if Admissible(extra, s.created) {
      assert OffRing(r) == OffRing(s) + multiset(extra);
      assert OnRing(r) == OnRing(s);
    }
  }

  lemma GlobalGetKeeps(c: Config, s: Rx, count: nat, extra: seq<Buf>, hand: multiset<Buf>)
    requires InvWith(c, s, hand)
    ensures var (got, r) := GlobalGet(s, count, extra);
            && r == s.(global := r.global, created := r.created) && s.created <= r.created
            && InvWith(c, r, if got.Granted? then hand + multiset(got.taken) else hand)
            && (got.Granted? ==> |got.taken| == count)
  {
    GrowKeeps(c, s, extra, hand);
    var s1 := if |s.global| < count then Grow(s, extra) else s;
    var (got, r) := GlobalGet(s, count, extra);
    if got.Granted? {
      TakeKeeps(c, s1, count, hand);
    }
  }

  lemma TakeKeeps(c: Config, s: Rx, count: nat, hand: multiset<Buf>)
    requires InvWith(c, s, hand) && count <= |s.global|
    ensures InvWith(c, s.(global := s.global[count..]), hand + multiset(s.global[..count]))
  {
    var r := s.(global := s.global[count..]);
    SplitContents(s.global, count);
    Exchange(multiset(s.pool), multiset(s.queue), s.upper,
             multiset(s.global), hand, multiset(r.global), hand + multiset(s.global[..count]));
    assert OnRing(s) == OnRing(r);
  }

  lemma RequestMoreKeeps(c: Config, s: Rx, extra: seq<Buf>, hand: multiset<Buf>)
    requires InvWith(c, s, hand)
    ensures var r := RequestMore(c, s, extra).1;
            && r == s.(global := r.global, created := r.created, pool := r.pool)
            && InvWith(c, r, hand) && s.created <= r.created && s.pool <= r.pool
            && |r.pool| == |s.pool| + (if RequestMore(c, s, extra).0 then c.level else 0)
  {
    GlobalGetKeeps(c, s, c.level, extra, hand);
    var (got, s1) := GlobalGet(s, c.level, extra);
    var r := RequestMore(c, s, extra).1;
    if got.Granted? {
      assert OffRing(r) == OffRing(s1) + multiset(got.taken);
      assert OnRing(r) == OnRing(s1);
    }
  }

  lemma CompensateKeeps(c: Config, s: Rx, extra: seq<Buf>, hand: multiset<Buf>)
    requires InvWith(c, s, hand)
    ensures var (done, r) := Compensate(c, s, extra);
            && InvWith(c, r, hand) && Owed(r) == Owed(s) && s.created <= r.created
            && (!done ==> r.debt == s.debt) && r.ready == s.ready
  {
    if s.pool != [] {
      PayDebtKeeps(c, s, hand);
    } else {
      RequestMoreKeeps(c, s, extra, hand);
      var (ok, s1) := RequestMore(c, s, extra);
      if ok { PayDebtKeeps(c, s1, hand); }
    }
  }

  lemma PostKeeps(c: Config, s: Rx, b: Buf, hand: multiset<Buf>)
    requires InvWith(c, s, hand + multiset{b}) && s.debt >= 1
    ensures var r := Post(c, s, b).(debt := s.debt - 1);
            && InvWith(c, r, hand) && Owed(r) == Owed(s)
            && r.created == s.created && r.ready == s.ready
  {
    var s1 := s.(debt := s.debt - 1);
    assert OffRing(s1) == OffRing(s) && OnRing(s1) == OnRing(s);
    assert PostList(c, Post(c, s1, b), []) == Post(c, s1, b) == PostList(c, s1, [b]);
    assert multiset([b]) == multiset{b};
    PostListKeeps(c, s1, [b], hand);
  }

  lemma CompensateSuccessKeeps(c: Config, s: Rx, b: Buf, extra: seq<Buf>, hand: multiset<Buf>)
    requires InvWith(c, s, hand + multiset{b}) && s.debt >= 1
    ensures var (used, r) := CompensateSuccess(c, s, b, extra);
            && InvWith(c, r, if used then hand else hand + multiset{b})
            && Owed(r) == Owed(s) && s.created <= r.created && r.ready == s.ready
  {
    CompensateKeeps(c, s, extra, hand + multiset{b});
    var (done, s1) := Compensate(c, s, extra);
    if !done {
      PostKeeps(c, s1, b, hand);
    }
  }

  lemma DeliverKeeps(c: Config, s: Rx, b: Buf, accept: bool, hand: multiset<Buf>)
    requires InvWith(c, s, hand + multiset{b})
    ensures var r := Deliver(s, b, accept);
            InvWith(c, r, hand) && Owed(r) == Owed(s) && r.created == s.created
  {
    var r := Deliver(s, b, accept);
    PushContents(s.pool, b);
    assert OffRing(r) == OffRing(s) + multiset{b};
    assert OnRing(r) == OnRing(s);
  }

  lemma PollOneKeeps(c: Config, s: Rx)
    requires Inv(c, s)
    ensures var (b, ok, r) := PollOne(s);
            && r.created == s.created
            && InvWith(c, r, if b == 0 then multiset{} else multiset{b})
            && Owed(r) == Owed(s) - (if b == 0 then 0 else 1)
            && (b == 0 <==> s.ready == [])
  {
    var (b, ok, r) := PollOne(s);
    if s.ready != [] {
      assert s.posted + s.pending == [b] + (r.posted + r.pending);
      assert OnRing(s) == multiset([b]) + OnRing(r);
      assert OffRing(s) == OffRing(r);
      assert b in OnRing(s) && b in multiset(s.created);
    } else {
      assert OnRing(s) == OnRing(r) && OffRing(s) == OffRing(r);
    }
  }

  /** Entering a consumed entry as debt, and paying if a batch is due. */
  lemma SettleKeeps(c: Config, s: Rx, b: Buf, e: Choice, hand: multiset<Buf>)
    requires InvWith(c, s, hand + multiset{b}) && Owed(s) < c.num
    ensures var (used, r) := Settle(c, s, b, e);
            && InvWith(c, r, if used then hand else hand + multiset{b})
            && Owed(r) == Owed(s) + 1 && s.created <= r.created && r.ready == s.ready
  {
    var s1 := s.(debt := s.debt + 1);
    assert OffRing(s1) == OffRing(s) && OnRing(s1) == OnRing(s);
    CompensateSuccessKeeps(c, s1, b, e.extra, hand);
  }

  lemma HandleKeeps(c: Config, s: Rx, b: Buf, ok: bool, e: Choice)
    requires InvWith(c, s, multiset{b}) && Owed(s) < c.num
    ensures var r := Handle(c, s, b, ok, e);
            Inv(c, r) && Owed(r) == Owed(s) + 1 && s.created <= r.created
  {
    hide Settle, Compensate, OffRing, OnRing;
    assert multiset{} + multiset{b} == multiset{b};
    if ok {
      SettleKeeps(c, s, b, e, multiset{});
      var (used, s1) := Settle(c, s, b, e);
      if !used { DeliverKeeps(c, s1, b, e.accept, multiset{}); }
    } else {
      FailedKeeps(c, s, b);
      CompensateKeeps(c, s.(pool := s.pool + [b], debt := s.debt + 1), e.extra, multiset{});
    }
  }

  lemma FailedKeeps(c: Config, s: Rx, b: Buf)
    requires InvWith(c, s, multiset{b}) && Owed(s) < c.num
    ensures Inv(c, s.(pool := s.pool + [b], debt := s.debt + 1))
  {
    assert multiset{} + multiset{b} == multiset{b};
    DeliverKeeps(c, s, b, false, multiset{});
    var s0, s1 := Deliver(s, b, false), s.(pool := s.pool + [b], debt := s.debt + 1);
    assert OffRing(s1) == OffRing(s0) && OnRing(s1) == OnRing(s0);
  }

  /** The drain loop enters no debt for a failed completion. */
  lemma HandleDrainedKeeps(c: Config, s: Rx, b: Buf, ok: bool, e: Choice)
    requires InvWith(c, s, multiset{b}) && Owed(s) < c.num
    ensures var r := HandleDrained(c, s, b, ok, e);
            && Inv(c, r) && Owed(r) == Owed(s) + (if ok then 1 else 0)
            && s.created <= r.created && r.ready == s.ready
  {
    hide Settle;
    assert multiset{} + multiset{b} == multiset{b};
    if !ok {
      DeliverKeeps(c, s, b, false, multiset{});
    } else if e.tcp {
      SettleKeeps(c, s, b, e, multiset{});
      var (used, s1) := Settle(c, s, b, e);
      if !used { DeliverKeeps(c, s1, b, e.accept, multiset{}); }
    } else {
      QueueDrainedKeeps(c, s, b, e);
    }
  }

  lemma QueueDrainedKeeps(c: Config, s: Rx, b: Buf, e: Choice)
    requires InvWith(c, s, multiset{b}) && Owed(s) < c.num && !e.tcp
    ensures var r := HandleDrained(c, s, b, true, e);
            Inv(c, r) && Owed(r) == Owed(s) + 1 && s.created <= r.created && r.ready == s.ready
  {
    hide Settle, InvWith;
    var q := s.queue + [b];
    var s0 := s.(queue := q[1..]);
    RotateKeeps(c, s, b);
    assert multiset{} + multiset{q[0]} == multiset{q[0]};
    SettleKeeps(c, s0, q[0], e, multiset{});
    var (used, s1) := Settle(c, s0, q[0], e);
    if !used { RequeueKeeps(c, s1, q[0]); }
  }

  /** A buffer joins the queue and the oldest one leaves it. */
  lemma RotateKeeps(c: Config, s: Rx, b: Buf)
    requires InvWith(c, s, multiset{b})
    ensures var q := s.queue + [b]; InvWith(c, s.(queue := q[1..]), multiset{q[0]})
  {
    var q := s.queue + [b];
    var s0 := s.(queue := q[1..]);
    PopContents(q);
    PushContents(s.queue, b);
    Exchange(multiset(s.global), multiset(s.pool), s.upper,
             multiset(s.queue), multiset{b}, multiset(s0.queue), multiset{q[0]});
    assert OnRing(s0) == OnRing(s);
  }

  lemma RequeueKeeps(c: Config, s: Rx, b: Buf)
    requires InvWith(c, s, multiset{b})
    ensures Inv(c, s.(queue := [b] + s.queue))
  {
    var r := s.(queue := [b] + s.queue);
    PushContents(s.queue, b);
    assert OffRing(r) == OffRing(s) + multiset{b};
    assert OnRing(r) == OnRing(s);
  }

  lemma {:induction false} PollLoopKeeps(c: Config, s: Rx, es: seq<Choice>)
    requires Inv(c, s)
    ensures var r := PollLoop(c, s, es).1;
            Inv(c, r) && Owed(r) == Owed(s) && s.created <= r.created
    decreases |es|
  {
    hide OffRing, OnRing, Handle;
    if es != [] {
      PollOneKeeps(c, s);
      var (b, ok, s1) := PollOne(s);
      if b != 0 {
        HandleKeeps(c, s1, b, ok, es[0]);
        PollLoopKeeps(c, Handle(c, s1, b, ok, es[0]), es[1..]);
      }
    }
  }

  lemma DequeueKeeps(c: Config, s: Rx)
    requires Inv(c, s) && s.queue != []
    ensures InvWith(c, s.(queue := s.queue[1..]), multiset{} + multiset{s.queue[0]})
  {
    var s1, b := s.(queue := s.queue[1..]), s.queue[0];
    PopContents(s.queue);
    assert OffRing(s) == OffRing(s1) + multiset{b};
    assert OnRing(s) == OnRing(s1);
  }

  lemma {:induction false} ProcessQueueKeeps(c: Config, s: Rx, accepts: seq<bool>)
    requires Inv(c, s)
    ensures var r := ProcessQueue(s, accepts).1;
            Inv(c, r) && Owed(r) == Owed(s) && r.created == s.created
    decreases |accepts|
  {
    hide InvWith;
    if s.queue != [] && accepts != [] {
      var s1, b := s.(queue := s.queue[1..]), s.queue[0];
      DequeueKeeps(c, s);
      DeliverKeeps(c, s1, b, accepts[0], multiset{});
      ProcessQueueKeeps(c, Deliver(s1, b, accepts[0]), accepts[1..]);
    }
  }

  /** Regular polling is exact: every entry consumed is posted again, pending or owed. */
  lemma PollAndProcessKeeps(c: Config, s: Rx, accepts: seq<bool>, es: seq<Choice>, extra: seq<Buf>)
    requires Inv(c, s)
    ensures var r := PollAndProcess(c, s, accepts, es, extra);
            Inv(c, r) && Owed(r) == Owed(s) && s.created <= r.created
  {
    hide OffRing, OnRing, PollLoop, ProcessQueue, Compensate;
    ProcessQueueKeeps(c, s, accepts);
    var (processed, s1) := ProcessQueue(s, accepts);
    PollLoopKeeps(c, s1, es);
    var s2 := PollLoop(c, s1, es).1;
    CompensateKeeps(c, s2, extra, multiset{});
  }

  /** How many of the first `n` completions failed. */
  function Failures(statuses: seq<bool>, n: nat): nat
  {
    if statuses == [] || n == 0 then 0
    else (if statuses[0] then 0 else 1) + Failures(statuses[1..], n - 1)
  }

  /** Draining loses exactly one ring entry for every failed completion it meets. */
  lemma {:induction false} DrainKeeps(c: Config, s: Rx, es: seq<Choice>)
    requires Inv(c, s)
    ensures var r := Drain(c, s, es);
            && Inv(c, r) && s.created <= r.created
            && Owed(r) == Owed(s) - Failures(s.ready, |es|)
    decreases |es|
  {
    hide OffRing, OnRing, HandleDrained;
    if es != [] {
      PollOneKeeps(c, s);
      var (b, ok, s1) := PollOne(s);
      if b != 0 {
        HandleDrainedKeeps(c, s1, b, ok, es[0]);
        DrainKeeps(c, HandleDrained(c, s1, b, ok, es[0]), es[1..]);
      }
    }
  }

  /** Cleaning up loses one ring entry for every completion it meets, failed or not. */
  lemma {:induction false} CleanKeeps(c: Config, s: Rx, recycle: bool)
    requires Inv(c, s)
    ensures var r := Clean(s, recycle);
            Inv(c, r) && Owed(r) == Owed(s) - |s.ready| && r.created == s.created && r.ready == []
    decreases |s.ready|
  {
    PollOneKeeps(c, s);
    var (b, ok, s1) := PollOne(s);
    if b != 0 {
      assert multiset{} + multiset{b} == multiset{b};
      DeliverKeeps(c, s1, b, false, multiset{});
      if ok && !recycle {
        var s2 := s1.(queue := s1.queue + [b]);
        PushContents(s1.queue, b);
        assert OffRing(s2) == OffRing(s1) + multiset{b};
        assert OnRing(s2) == OnRing(s1);
        CleanKeeps(c, s2, recycle);
      } else {
        CleanKeeps(c, s1.(pool := s1.pool + [b]), recycle);
      }
    }
  }

  lemma ReclaimKeeps(c: Config, s: Rx, chain: seq<Buf>, mine: bool)
    requires Inv(c, s)
    ensures var r := Reclaim(s, chain, mine);
            Inv(c, r) && Owed(r) == Owed(s) && r.created == s.created
  {
    var r := Reclaim(s, chain, mine);
    ReversedContents(chain);
    assert OnRing(r) == OnRing(s);
    if multiset(chain) <= s.upper {
      assert s.upper == r.upper + multiset(chain);
      assert OffRing(r) == OffRing(s);
    }
  }

  /** A chain that the upper layer holds goes to the end of its own pool, or to the front of the global one. */
  lemma ReclaimGoes(s: Rx, chain: seq<Buf>, mine: bool)
    requires multiset(chain) <= s.upper
    ensures var r := Reclaim(s, chain, mine);
            && r.upper + multiset(chain) == s.upper
            && (mine ==> r.pool == s.pool + chain && r.global == s.global)
            && (!mine ==> r.pool == s.pool && |r.global| == |s.global| + |chain| && r.global[|chain|..] == s.global
                          && multiset(r.global) == multiset(s.global) + multiset(chain))
  {
    ReversedContents(chain);
  }

  lemma ReturnExtraKeeps(c: Config, s: Rx)
    requires Inv(c, s)
    ensures var r := ReturnExtra(c, s);
            && Inv(c, r) && Owed(r) == Owed(s) && r.created == s.created
            && r.pool <= s.pool && |r.pool| == (if |s.pool| < 2 * c.level then |s.pool| else c.level)
  {
    var r := ReturnExtra(c, s);
    if |s.pool| >= c.level * 2 {
      SplitContents(s.pool, c.level);
      assert OffRing(r) == OffRing(s);
      assert OnRing(r) == OnRing(s);
    }
  }

  /** The ring entries an operation takes out of the accounts for good. */
  function LostBy(s: Rx, op: Op): nat
  {
    match op
    case OpDrain(es) => Failures(s.ready, |es|)
    case OpClean(_) => |s.ready|
    case _ => 0
  }

  ghost function Lost(c: Config, s: Rx, ops: seq<Op>): nat
    decreases |ops|
  {
    if ops == [] then 0 else LostBy(s, ops[0]) + Lost(c, Step(c, s, ops[0]), ops[1..])
  }

  lemma StepKeeps(c: Config, s: Rx, op: Op)
    requires Inv(c, s)
    ensures Inv(c, Step(c, s, op)) && s.created <= Step(c, s, op).created
    ensures Owed(Step(c, s, op)) == Owed(s) - LostBy(s, op)
  {
    hide PollAndProcess, Drain, Clean, Reclaim, ReturnExtra;
    match op
    case OpComplete(ok) => assert OnRing(Complete(s, ok)) == OnRing(s) && OffRing(Complete(s, ok)) == OffRing(s);
    case OpPoll(accepts, es, extra) => PollAndProcessKeeps(c, s, accepts, es, extra);
    case OpDrain(es) => DrainKeeps(c, s, es);
    case OpClean(recycle) => CleanKeeps(c, s, recycle);
    case OpReclaim(chain, mine) => ReclaimKeeps(c, s, chain, mine);
    case OpReturnExtra => ReturnExtraKeeps(c, s);
  }

  /**
   Through every run the ring is never promised more than its size, the debt is never negative,
   and every buffer ever created is in exactly one place.  The entries in use, promised or owed are
   those of the start less the ones lost to drained failures and to cleanups.
   */
  lemma {:induction false} RunKeeps(c: Config, s: Rx, ops: seq<Op>)
    requires Inv(c, s)
    ensures var r := Run(c, s, ops);
            && Inv(c, r) && s.created <= r.created
            && 0 <= r.debt && |r.posted| + |r.pending| + r.debt <= c.num
            && Owed(r) == Owed(s) - Lost(c, s, ops)
            && (forall b :: b in r.created ==> Places(r)[b] == 1)
            && (forall b :: b !in r.created ==> Places(r)[b] == 0)
    decreases |ops|
  {
    if ops == [] {
      assert OffRing(s) + multiset{} == OffRing(s);
    } else {
      StepKeeps(c, s, ops[0]);
      RunKeeps(c, Step(c, s, ops[0]), ops[1..]);
    }
  }

  /** The initial fill never overshoots the ring, whatever the pool refuses; a rich pool fills it. */
  lemma {:induction false} FillKeeps(c: Config, s: Rx, left: nat, extras: seq<seq<Buf>>)
    requires Inv(c, s) && Owed(s) + left <= c.num
    ensures var r := Fill(c, s, left, extras);
            && Inv(c, r) && s.created <= r.created && r.debt == s.debt && Owed(r) <= Owed(s) + left
            && (|s.global| >= left ==> Owed(r) == Owed(s) + left)
    decreases left
  {
    if left > 0 {
      var n := if c.batch > left then left else c.batch;
      var extra, extras' := if extras == [] then [] else extras[0], if extras == [] then [] else extras[1..];
      FillBatchKeeps(c, s, n, extra);
      var (got, s1) := GlobalGet(s, n, extra);
      if got.Granted? {
        FillKeeps(c, PostList(c, s1, got.taken), left - n, extras');
      }
    }
  }

  /** The initial fill only adds to the ring. */
  lemma {:induction false} FillShape(c: Config, s: Rx, left: nat, extras: seq<seq<Buf>>)
    requires |s.pending| < c.batch
    ensures var r := Fill(c, s, left, extras);
            && s.posted <= r.posted && |r.pending| < c.batch
            && r == s.(global := r.global, pending := r.pending, posted := r.posted, created := r.created)
    decreases left
  {
    hide PostList, Admissible, Elements;
    if left > 0 {
      var n := if c.batch > left then left else c.batch;
      var extra, extras' := if extras == [] then [] else extras[0], if extras == [] then [] else extras[1..];
      FillBatchShape(c, s, n, extra);
      var (got, s1) := GlobalGet(s, n, extra);
      if got.Granted? {
        FillShape(c, PostList(c, s1, got.taken), left - n, extras');
      }
    }
  }

  lemma FillBatchShape(c: Config, s: Rx, n: nat, extra: seq<Buf>)
    requires |s.pending| < c.batch
    ensures var (got, s1) := GlobalGet(s, n, extra);
            var r := if got.Granted? then PostList(c, s1, got.taken) else s1;
            && s.posted <= r.posted && |r.pending| < c.batch
            && r == s.(global := r.global, pending := r.pending, posted := r.posted, created := r.created)
  {
    hide PostList;
    var (got, s1) := GlobalGet(s, n, extra);
    if got.Granted? {
      PostListInOrder(c, s1, got.taken);
    }
  }

  lemma FillBatchKeeps(c: Config, s: Rx, n: nat, extra: seq<Buf>)
    requires Inv(c, s) && Owed(s) + n <= c.num
    ensures var (got, s1) := GlobalGet(s, n, extra);
            var r := if got.Granted? then PostList(c, s1, got.taken) else s1;
            && Inv(c, r) && s.created <= r.created && r.debt == s.debt
            && Owed(r) == Owed(s) + (if got.Granted? then n else 0)
            && (|s.global| >= n ==> got.Granted? && |r.global| == |s.global| - n)
  {
    GlobalGetKeeps(c, s, n, extra, multiset{});
    var (got, s1) := GlobalGet(s, n, extra);
    if got.Granted? {
      PostListKeeps(c, s1, got.taken, multiset{});
      PostListInOrder(c, s1, got.taken);
    }
  }

  /** Compensation only moves free buffers to the back of the ring. */
  lemma CompensateShape(c: Config, s: Rx, extra: seq<Buf>)
    requires |s.pending| < c.batch
    ensures var r := CompensateFailed(c, s, extra);
            && s.posted <= r.posted
            && r == s.(global := r.global, pool := r.pool, pending := r.pending, posted := r.posted,
                       debt := r.debt, created := r.created)
  {
    var s1 := if s.pool != [] then s else RequestMore(c, s, extra).1;
    var n := if 0 <= s1.debt < |s1.pool| then s1.debt else |s1.pool|;
    PostListInOrder(c, s1.(pool := s1.pool[n..], debt := s1.debt - n), s1.pool[..n]);
  }

  // ---------- the keep-full option ----------

  /** A batch of debt is never left standing. */
  ghost predicate Fed(c: Config, s: Rx)
  {
    0 <= s.debt < c.batch
  }

  lemma CompensateFeeds(c: Config, s: Rx, extra: seq<Buf>)
    requires c.batch >= 1 && |s.pending| < c.batch && s.debt >= 1 && c.level >= 1
    ensures var (done, r) := Compensate(c, s, extra);
            && |r.pending| < c.batch && 0 <= r.debt
            && (if done then r.debt < s.debt && (r.debt == 0 || r.pool == []) else r.debt == s.debt && s.pool == [])
  {
    if s.pool != [] {
      PayDebtFeeds(c, s);
    } else {
      var (ok, s1) := RequestMore(c, s, extra);
      if ok {
        assert s1.pool != [];
        PayDebtFeeds(c, s1);
      }
    }
  }

  lemma PayDebtFeeds(c: Config, s: Rx)
    requires |s.pending| < c.batch && s.debt >= 1 && s.pool != []
    ensures var r := PayDebt(c, s);
            0 <= r.debt < s.debt && (r.debt == 0 || r.pool == []) && |r.pending| < c.batch
  {
    var n := if 0 <= s.debt < |s.pool| then s.debt else |s.pool|;
    PostListInOrder(c, s.(pool := s.pool[n..], debt := s.debt - n), s.pool[..n]);
  }

  lemma SettleFeeds(c: Config, s: Rx, b: Buf, e: Choice)
    requires c.keepFull && c.level >= 1 && |s.pending| < c.batch && Fed(c, s)
    ensures var r := Settle(c, s, b, e).1; Fed(c, r) && |r.pending| < c.batch
  {
    if s.debt + 1 >= c.batch {
      CompensateFeeds(c, s.(debt := s.debt + 1), e.extra);
    }
  }

  lemma HandleFeeds(c: Config, s: Rx, b: Buf, ok: bool, e: Choice)
    requires c.keepFull && c.level >= 1 && |s.pending| < c.batch && Fed(c, s)
    ensures Fed(c, Handle(c, s, b, ok, e)) && Fed(c, HandleDrained(c, s, b, ok, e))
  {
    SettleFeeds(c, s, b, e);
    SettleFeeds(c, s.(queue := (s.queue + [b])[1..]), (s.queue + [b])[0], e);
    if !ok && s.debt + 1 >= c.batch {
      CompensateFeeds(c, s.(pool := s.pool + [b], debt := s.debt + 1), e.extra);
    }
  }

  lemma {:induction false} PollLoopFeeds(c: Config, s: Rx, es: seq<Choice>)
    requires c.keepFull && c.level >= 1 && Inv(c, s) && Fed(c, s)
    ensures Fed(c, PollLoop(c, s, es).1) && Fed(c, Drain(c, s, es))
    decreases |es|
  {
    hide OffRing, OnRing, Handle, HandleDrained;
    if es != [] {
      PollOneKeeps(c, s);
      var (b, ok, s1) := PollOne(s);
      if b != 0 {
        HandleFeeds(c, s1, b, ok, es[0]);
        HandleKeeps(c, s1, b, ok, es[0]);
        HandleDrainedKeeps(c, s1, b, ok, es[0]);
        PollLoopFeeds(c, Handle(c, s1, b, ok, es[0]), es[1..]);
        PollLoopFeeds(c, HandleDrained(c, s1, b, ok, es[0]), es[1..]);
      }
    }
  }

  lemma {:induction false} ProcessQueueDebt(s: Rx, accepts: seq<bool>)
    ensures ProcessQueue(s, accepts).1.debt == s.debt
    decreases |accepts|
  {
    if s.queue != [] && accepts != [] {
      ProcessQueueDebt(Deliver(s.(queue := s.queue[1..]), s.queue[0], accepts[0]), accepts[1..]);
    }
  }

  lemma {:induction false} CleanDebt(s: Rx, recycle: bool)
    ensures Clean(s, recycle).debt == s.debt
    decreases |s.ready|
  {
    var (b, ok, s1) := PollOne(s);
    if b != 0 && s.ready != [] {
      if ok && !recycle { CleanDebt(s1.(queue := s1.queue + [b]), recycle); }
      else { CleanDebt(s1.(pool := s1.pool + [b]), recycle); }
    }
  }

  lemma StepFeeds(c: Config, s: Rx, op: Op)
    requires c.keepFull && c.level >= 1 && Inv(c, s) && Fed(c, s)
    ensures Fed(c, Step(c, s, op))
  {
    hide OffRing, OnRing, PollLoop, ProcessQueue, Drain, Clean, Compensate;
    match op
    case OpPoll(accepts, es, extra) =>
      ProcessQueueKeeps(c, s, accepts);
      ProcessQueueDebt(s, accepts);
      var s1 := ProcessQueue(s, accepts).1;
      PollLoopFeeds(c, s1, es);
      PollLoopKeeps(c, s1, es);
      var s2 := PollLoop(c, s1, es).1;
      if s2.debt != 0 { CompensateFeeds(c, s2, extra); }
    case OpDrain(es) => PollLoopFeeds(c, s, es);
    case OpClean(recycle) => CleanDebt(s, recycle);
    case _ =>
  }

  /**
   With the keep-full option, in every run less than a batch is owed and less than a batch is
   pending.  So a ring that was filled completely lacks at most two batches less two entries, and
   the entries lost to drained failures and to cleanups.
   */
  lemma {:induction false} RunFeeds(c: Config, s: Rx, ops: seq<Op>)
    requires c.keepFull && c.level >= 1 && Inv(c, s) && Fed(c, s)
    ensures var r := Run(c, s, ops);
            && 0 <= r.debt < c.batch
            && |r.posted| >= Owed(s) - Lost(c, s, ops) - 2 * (c.batch - 1)
            && (Owed(s) == c.num ==> |r.posted| >= c.num - Lost(c, s, ops) - 2 * (c.batch - 1))
    decreases |ops|
  {
    if ops != [] {
      StepKeeps(c, s, ops[0]);
      StepFeeds(c, s, ops[0]);
      RunFeeds(c, Step(c, s, ops[0]), ops[1..]);
    }
  }

  /** The loss is real: one drained failure leaves a ring of one entry empty, with nothing owed. */
  lemma DrainedFailureStarves(e: Choice)
    ensures var c, s := Config(1, 1, 1, true), Empty([]).(posted := [1], created := {1});
            var ops := [OpComplete(false), OpDrain([e])];
            && Inv(c, s) && Owed(s) == c.num && Lost(c, s, ops) == 1
            && Run(c, s, ops).posted == [] && Run(c, s, ops).pending == [] && Run(c, s, ops).debt == 0
  {
    var c, s := Config(1, 1, 1, true), Empty([]).(posted := [1], created := {1});
    var s1 := Step(c, s, OpComplete(false));
    assert s1 == s.(ready := [false]);
    var polled := PollOne(s1).2;
    assert polled.posted == [] && polled.ready == [];
    var s2 := HandleDrained(c, polled, 1, false, e);
    assert Drain(c, s2, []) == s2 == Drain(c, s1, [e]);
    assert Step(c, s1, OpDrain([e])) == s2;
    assert Run(c, s2, []) == s2 == Run(c, s1, [OpDrain([e])]);
    assert [OpComplete(false), OpDrain([e])][1..] == [OpDrain([e])];
    assert [OpDrain([e])][1..] == [];
    assert Lost(c, s2, []) == 0 && Failures(s1.ready, 1) == 1;
    assert Lost(c, s1, [OpDrain([e])]) == 1;
  }

  // ---------- who gets the buffers ----------

  /** The global pool has `count` buffers, if need be with those it can make. */
  ghost predicate Supplies(s: Rx, count: nat, extra: seq<Buf>)
  {
    |s.global| >= count || (Admissible(extra, s.created) && |extra| + |s.global| >= count)
  }

  /**
   One more consumed entry makes a batch due and no buffer is to be had for it, and the ring is to be
   kept full or all of it is owed: the received buffer itself has to go back to the ring.
   */
  ghost predicate Starved(c: Config, s: Rx, extra: seq<Buf>)
  {
    && s.debt + 1 >= c.batch && s.pool == [] && !Supplies(s, c.level, extra)
    && (c.keepFull || s.debt + 1 >= c.num)
  }

  /** Compensation finds buffers exactly when the pool or the global pool has them, and hands none up. */
  lemma CompensateFinds(c: Config, s: Rx, extra: seq<Buf>)
    requires |s.pending| < c.batch
    ensures var (done, r) := Compensate(c, s, extra);
            && (done <==> s.pool != [] || Supplies(s, c.level, extra))
            && r.upper == s.upper && r.queue == s.queue && s.posted <= r.posted && |r.pending| < c.batch
            && r.ready == s.ready && r.hot == s.hot
            && (done ==> (r.debt == 0 || r.pool == []) || s.debt < 0) && (!done ==> r.debt == s.debt && r.pool == [])
  {
    var s1 := if s.pool != [] then s else RequestMore(c, s, extra).1;
    var n := if 0 <= s1.debt < |s1.pool| then s1.debt else |s1.pool|;
    PostListInOrder(c, s1.(pool := s1.pool[n..], debt := s1.debt - n), s1.pool[..n]);
  }

  predicate EndsIn(bs: seq<Buf>, b: Buf)
  {
    bs != [] && bs[|bs| - 1] == b
  }

  lemma SettleDelivers(c: Config, s: Rx, b: Buf, e: Choice)
    requires |s.pending| < c.batch && s.debt >= 0
    ensures var (reposted, r) := Settle(c, s, b, e);
            && (reposted <==> Starved(c, s, e.extra))
            && r.upper == s.upper && r.queue == s.queue && s.posted <= r.posted && |r.pending| < c.batch
            && r.ready == s.ready && 0 <= r.debt <= s.debt + 1 && (r.debt < c.batch || r.pool == [])
            && (reposted ==> EndsIn(r.posted + r.pending, b))
  {
    hide Compensate;
    var s1 := s.(debt := s.debt + 1);
    if s1.debt >= c.batch {
      CompensateFinds(c, s1, e.extra);
      PaysOnly(c, s1, e.extra);
      assert Supplies(s1, c.level, e.extra) == Supplies(s, c.level, e.extra);
    }
  }

  lemma PaysOnly(c: Config, s: Rx, extra: seq<Buf>)
    requires |s.pending| < c.batch && s.debt >= 0
    ensures 0 <= Compensate(c, s, extra).1.debt <= s.debt
  {
    var s1 := if s.pool != [] then s else RequestMore(c, s, extra).1;
    var n := if 0 <= s1.debt < |s1.pool| then s1.debt else |s1.pool|;
    PostListInOrder(c, s1.(pool := s1.pool[n..], debt := s1.debt - n), s1.pool[..n]);
  }

  /**
   A polled buffer goes up exactly when its completion was good, the upper layer accepts it and the
   ring does not need it back.  A refused one is the last of the pool; a failed one is never handed up.
   No batch of debt is left standing while there are buffers to pay it with.
   */
  lemma HandleDelivers(c: Config, s: Rx, b: Buf, ok: bool, e: Choice)
    requires |s.pending| < c.batch && s.debt >= 0
    ensures var r := Handle(c, s, b, ok, e);
            && r.upper == s.upper + (if ok && e.accept && !Starved(c, s, e.extra) then multiset{b} else multiset{})
            && (ok && !e.accept && !Starved(c, s, e.extra) ==> EndsIn(r.pool, b))
            && (ok && Starved(c, s, e.extra) ==> EndsIn(r.posted + r.pending, b))
            && (!ok && s.debt + 1 < c.batch ==> r.pool == s.pool + [b])
            && r.queue == s.queue && s.posted <= r.posted && r.ready == s.ready
            && |r.pending| < c.batch && 0 <= r.debt <= s.debt + 1
            && (!ok || e.accept ==> r.debt < c.batch || r.pool == [])
  {
    hide Settle, Compensate, Starved;
    if ok {
      SettleDelivers(c, s, b, e);
    } else {
      var s1 := s.(pool := s.pool + [b], debt := s.debt + 1);
      CompensateFinds(c, s1, e.extra);
      PaysOnly(c, s1, e.extra);
    }
  }

  /** What the completions at hand entitle the upper layer to: the good ones it accepts. */
  function Good(posted: seq<Buf>, ready: seq<bool>, es: seq<Choice>): multiset<Buf>
    decreases |es|
  {
    if posted == [] || ready == [] || es == [] then multiset{}
    else (if ready[0] && es[0].accept then multiset{posted[0]} else multiset{}) + Good(posted[1..], ready[1..], es[1..])
  }

  lemma {:induction false} GoodMore(posted: seq<Buf>, more: seq<Buf>, ready: seq<bool>, es: seq<Choice>)
    requires |ready| <= |posted| && posted <= more
    ensures Good(more, ready, es) == Good(posted, ready, es)
    decreases |es|
  {
    if ready != [] && es != [] {
      GoodMore(posted[1..], more[1..], ready[1..], es[1..]);
    }
  }

  /**
   Over the polling loop the upper layer gets only what it is entitled to, and all of it while no batch
   of debt comes due; a buffer it is entitled to and does not get is one the ring had to take back.
   */
  lemma {:induction false} PollLoopDelivers(c: Config, s: Rx, es: seq<Choice>)
    requires Inv(c, s)
    ensures var r := PollLoop(c, s, es).1;
            && r.upper <= s.upper + Good(s.posted, s.ready, es) && s.upper <= r.upper
            && (s.debt + |es| < c.batch || NeverStarved(c, s, es) ==> r.upper == s.upper + Good(s.posted, s.ready, es))
            && r.queue == s.queue
    decreases |es|
  {
    hide OffRing, OnRing, Handle, Starved;
    if es != [] {
      PollOneKeeps(c, s);
      var (b, ok, s1) := PollOne(s);
      if b != 0 {
        HandleDelivers(c, s1, b, ok, es[0]);
        HandleKeeps(c, s1, b, ok, es[0]);
        var s2 := Handle(c, s1, b, ok, es[0]);
        PollLoopDelivers(c, s2, es[1..]);
        GoodMore(s.posted[1..], s2.posted, s2.ready, es[1..]);
        if s.debt + |es| < c.batch { NotDue(c, s1, es[0].extra); }
        assert s1.posted == s.posted[1..] && s2.ready == s.ready[1..];
        assert ok == s.ready[0] && b == s.posted[0];
      }
    }
  }

  lemma NotDue(c: Config, s: Rx, extra: seq<Buf>)
    requires s.debt + 1 < c.batch
    ensures !Starved(c, s, extra)
  {
  }

  /** At no turn of the loop does the ring need a received buffer back. */
  ghost predicate NeverStarved(c: Config, s: Rx, es: seq<Choice>)
    decreases |es|
  {
    es == [] || s.ready == [] || s.posted == [] ||
    (!Starved(c, PollOne(s).2, es[0].extra) &&
     NeverStarved(c, Handle(c, PollOne(s).2, s.posted[0], s.ready[0], es[0]), es[1..]))
  }

  /** The waiting buffers that are accepted, and those that are refused, in order. */
  function Offered(queue: seq<Buf>, accepts: seq<bool>, accepted: bool): seq<Buf>
    decreases |queue|
  {
    if queue == [] || accepts == [] then []
    else (if accepts[0] == accepted then [queue[0]] else []) + Offered(queue[1..], accepts[1..], accepted)
  }

  /** Waiting buffers go up oldest first; those refused go to the pool in that order. */
  lemma {:induction false} ProcessQueueDelivers(s: Rx, accepts: seq<bool>)
    ensures var (n, r) := ProcessQueue(s, accepts);
            && n == (if |accepts| < |s.queue| then |accepts| else |s.queue|) && r.queue == s.queue[n..]
            && r.upper == s.upper + multiset(Offered(s.queue, accepts, true))
            && r.pool == s.pool + Offered(s.queue, accepts, false)
            && r == s.(queue := r.queue, upper := r.upper, pool := r.pool)
    decreases |accepts|
  {
    hide Offered, Deliver;
    if s.queue == [] || accepts == [] {
      NothingOffered(s, accepts);
    } else {
      var s1 := Deliver(s.(queue := s.queue[1..]), s.queue[0], accepts[0]);
      ProcessQueueDelivers(s1, accepts[1..]);
      OfferedStep(s, accepts);
      var (n, r) := ProcessQueue(s1, accepts[1..]);
      assert s.queue[1..][n..] == s.queue[n + 1..];
    }
  }

  lemma NothingOffered(s: Rx, accepts: seq<bool>)
    requires s.queue == [] || accepts == []
    ensures Offered(s.queue, accepts, true) == [] == Offered(s.queue, accepts, false)
    ensures ProcessQueue(s, accepts) == (0, s) && s.queue[0..] == s.queue
  {
  }

  lemma OfferedStep(s: Rx, accepts: seq<bool>)
    requires s.queue != [] && accepts != []
    ensures var s1 := Deliver(s.(queue := s.queue[1..]), s.queue[0], accepts[0]);
            && s1.upper + multiset(Offered(s1.queue, accepts[1..], true)) ==
               s.upper + multiset(Offered(s.queue, accepts, true))
            && s1.pool + Offered(s1.queue, accepts[1..], false) == s.pool + Offered(s.queue, accepts, false)
            && s1 == s.(queue := s.queue[1..], upper := s1.upper, pool := s1.pool)
  {
    hide Offered;
    OfferedIs(s.queue, accepts, true);
    OfferedIs(s.queue, accepts, false);
    var up, back := Offered(s.queue[1..], accepts[1..], true), Offered(s.queue[1..], accepts[1..], false);
    var b := s.queue[0];
    if accepts[0] {
      PushContents(up, b);
      assert s.upper + multiset{b} + multiset(up) == s.upper + multiset([b] + up);
    } else {
      assert s.pool + [b] + back == s.pool + ([b] + back);
    }
  }

  lemma OfferedIs(queue: seq<Buf>, accepts: seq<bool>, accepted: bool)
    requires queue != [] && accepts != []
    ensures Offered(queue, accepts, accepted) ==
            if accepts[0] == accepted then [queue[0]] + Offered(queue[1..], accepts[1..], accepted)
            else Offered(queue[1..], accepts[1..], accepted)
  {
  }

  /**
   A polling call hands up the waiting buffers that are accepted, and unless these were as many as
   allowed, the good completions that are accepted and that the ring does not take back.  A call that
   finds no completion pays what it owes as far as buffers can be had.
   */
  lemma PollAndProcessDelivers(c: Config, s: Rx, accepts: seq<bool>, es: seq<Choice>, extra: seq<Buf>)
    requires Inv(c, s)
    ensures var r := PollAndProcess(c, s, accepts, es, extra);
            var waited := s.upper + multiset(Offered(s.queue, accepts, true));
            && (|s.queue| >= |accepts| ==> r.upper == waited && r.posted == s.posted && r.ready == s.ready)
            && waited <= r.upper
            && (|s.queue| < |accepts| ==> r.upper <= waited + Good(s.posted, s.ready, es))
            && (|s.queue| < |accepts| && s.debt + |es| < c.batch ==> r.upper == waited + Good(s.posted, s.ready, es))
            && (|s.queue| < |accepts| && s.ready == [] ==> r.debt == 0 || r.pool == [])
  {
    hide OffRing, OnRing, PollLoop, Compensate, ProcessQueue, Offered, Good;
    ProcessQueueDelivers(s, accepts);
    ProcessQueueKeeps(c, s, accepts);
    var s1 := ProcessQueue(s, accepts).1;
    PollLoopDelivers(c, s1, es);
    PollLoopKeeps(c, s1, es);
    var s2 := PollLoop(c, s1, es).1;
    CompensateFinds(c, s2, extra);
    if s1.ready == [] { NothingPolled(c, s1, es); }
  }

  lemma NothingPolled(c: Config, s: Rx, es: seq<Choice>)
    requires Inv(c, s) && s.ready == []
    ensures PollLoop(c, s, es).0 == 0
  {
    PollOneKeeps(c, s);
  }

  /**
   A drained failure goes to the pool.  A good TCP buffer goes up like a polled one; any other good
   buffer waits behind those that wait, and if the ring needs one back it takes the oldest of these.
   */
  lemma HandleDrainedDelivers(c: Config, s: Rx, b: Buf, ok: bool, e: Choice)
    requires |s.pending| < c.batch && s.debt >= 0
    ensures var r, starved := HandleDrained(c, s, b, ok, e), Starved(c, s, e.extra);
            && r.upper == s.upper + (if ok && e.tcp && e.accept && !starved then multiset{b} else multiset{})
            && (!ok ==> r.pool == s.pool + [b] && r.debt == s.debt && r.posted == s.posted)
            && (!ok || e.tcp ==> r.queue == s.queue)
            && (ok && !e.tcp ==> if starved then [WaitsLongest(s, b)] + r.queue == s.queue + [b] else r.queue == s.queue + [b])
            && (ok && starved ==> EndsIn(r.posted + r.pending, if e.tcp then b else WaitsLongest(s, b)))
            && s.posted <= r.posted && r.ready == s.ready && |r.pending| < c.batch && 0 <= r.debt <= s.debt + 1
  {
    hide Settle, Compensate, Starved;
    if ok && e.tcp {
      SettleDelivers(c, s, b, e);
    } else if ok {
      var q := s.queue + [b];
      SettleDelivers(c, s.(queue := q[1..]), q[0], e);
      SameStarved(c, s, q[1..], e.extra);
      assert [q[0]] + q[1..] == q;
    }
  }

  function WaitsLongest(s: Rx, b: Buf): Buf
  {
    if s.queue == [] then b else s.queue[0]
  }

  lemma SameStarved(c: Config, s: Rx, queue: seq<Buf>, extra: seq<Buf>)
    ensures Starved(c, s.(queue := queue), extra) == Starved(c, s, extra)
  {
  }

  /** The good TCP buffers that are accepted, and the good others in order. */
  function GoodTcp(posted: seq<Buf>, ready: seq<bool>, es: seq<Choice>): multiset<Buf>
    decreases |es|
  {
    if posted == [] || ready == [] || es == [] then multiset{}
    else
      (if ready[0] && es[0].tcp && es[0].accept then multiset{posted[0]} else multiset{}) +
      GoodTcp(posted[1..], ready[1..], es[1..])
  }

  function GoodOther(posted: seq<Buf>, ready: seq<bool>, es: seq<Choice>): seq<Buf>
    decreases |es|
  {
    if posted == [] || ready == [] || es == [] then []
    else
      (if ready[0] && !es[0].tcp then [posted[0]] else []) + GoodOther(posted[1..], ready[1..], es[1..])
  }

  lemma {:induction false} GoodDrainedMore(posted: seq<Buf>, more: seq<Buf>, ready: seq<bool>, es: seq<Choice>)
    requires |ready| <= |posted| && posted <= more
    ensures GoodTcp(more, ready, es) == GoodTcp(posted, ready, es)
    ensures GoodOther(more, ready, es) == GoodOther(posted, ready, es)
    decreases |es|
  {
    if ready != [] && es != [] {
      GoodDrainedMore(posted[1..], more[1..], ready[1..], es[1..]);
    }
  }

  /**
   Over the drain only good TCP buffers that are accepted go up; while no batch of debt comes due all of
   them do, and the other good ones wait in order behind those that waited.
   */
  lemma {:induction false} DrainDelivers(c: Config, s: Rx, es: seq<Choice>)
    requires Inv(c, s)
    ensures var r := Drain(c, s, es);
            && s.upper <= r.upper && r.upper <= s.upper + GoodTcp(s.posted, s.ready, es)
            && (s.debt + |es| < c.batch ==>
                && r.upper == s.upper + GoodTcp(s.posted, s.ready, es)
                && r.queue == s.queue + GoodOther(s.posted, s.ready, es))
    decreases |es|
  {
    hide InvWith, HandleDrained, Starved, GoodTcp, GoodOther;
    PollOneKeeps(c, s);
    if es == [] || s.ready == [] {
      NoneDrained(c, s, es);
    } else {
      var e := es[0];
      var (b, ok, s1) := PollOne(s);
      var s2 := HandleDrained(c, s1, b, ok, e);
      DrainedTurn(c, s, e);
      DrainDelivers(c, s2, es[1..]);
      GoodDrainedMore(s.posted[1..], s2.posted, s2.ready, es[1..]);
      GoodDrainedIs(s.posted, s.ready, es);
      var up := if ok && e.tcp && e.accept then multiset{b} else multiset{};
      var wait := if ok && !e.tcp then [b] else [];
      var ups, waits := GoodTcp(s.posted[1..], s2.ready, es[1..]), GoodOther(s.posted[1..], s2.ready, es[1..]);
      Joined(s.upper, up, ups, s2.upper, s.queue, wait, waits);
    }
  }

  /** One turn of the drain. */
  lemma DrainedTurn(c: Config, s: Rx, e: Choice)
    requires Inv(c, s) && s.ready != []
    ensures |s.ready| <= |s.posted| && PollOne(s).0 == s.posted[0] && PollOne(s).1 == s.ready[0]
    ensures var (b, ok, s1) := PollOne(s);
            var s2 := HandleDrained(c, s1, b, ok, e);
            && Inv(c, s2) && s.posted[1..] <= s2.posted && s2.ready == s.ready[1..] && s2.debt <= s.debt + 1
            && s.upper <= s2.upper <= s.upper + (if ok && e.tcp && e.accept then multiset{b} else multiset{})
            && (s.debt + 1 < c.batch ==>
                && s2.upper == s.upper + (if ok && e.tcp && e.accept then multiset{b} else multiset{})
                && s2.queue == s.queue + (if ok && !e.tcp then [b] else []))
  {
    hide OffRing, OnRing, HandleDrained, Starved;
    PollOneKeeps(c, s);
    var (b, ok, s1) := PollOne(s);
    HandleDrainedDelivers(c, s1, b, ok, e);
    HandleDrainedKeeps(c, s1, b, ok, e);
    if s.debt + 1 < c.batch { NotDue(c, s1, e.extra); }
  }

  lemma Joined(upper: multiset<Buf>, up: multiset<Buf>, ups: multiset<Buf>, upper': multiset<Buf>,
               queue: seq<Buf>, wait: seq<Buf>, waits: seq<Buf>)
    requires upper' <= upper + up
    ensures upper' + ups <= upper + (up + ups) && upper + up + ups == upper + (up + ups)
    ensures queue + wait + waits == queue + (wait + waits)
  {
  }

  lemma NoneDrained(c: Config, s: Rx, es: seq<Choice>)
    requires Inv(c, s) && (es == [] || s.ready == [] || s.posted == [])
    ensures var r := Drain(c, s, es); r.upper == s.upper && r.queue == s.queue
    ensures GoodTcp(s.posted, s.ready, es) == multiset{} && GoodOther(s.posted, s.ready, es) == []
  {
    PollOneKeeps(c, s);
  }

  lemma GoodDrainedIs(posted: seq<Buf>, ready: seq<bool>, es: seq<Choice>)
    requires posted != [] && ready != [] && es != []
    ensures GoodTcp(posted, ready, es) ==
            (if ready[0] && es[0].tcp && es[0].accept then multiset{posted[0]} else multiset{}) +
            GoodTcp(posted[1..], ready[1..], es[1..])
    ensures GoodOther(posted, ready, es) ==
            (if ready[0] && !es[0].tcp then [posted[0]] else []) + GoodOther(posted[1..], ready[1..], es[1..])
  {
  }

  /** The posted buffers whose completions were good, or were failures, in order. */
  function Picked(posted: seq<Buf>, ready: seq<bool>, good: bool): seq<Buf>
    decreases |ready|
  {
    if posted == [] || ready == [] then []
    else (if ready[0] == good then [posted[0]] else []) + Picked(posted[1..], ready[1..], good)
  }

  /** Cleaning keeps the good buffers waiting and puts the others in the pool; recycling puts all there. */
  lemma {:induction false} CleanSorts(s: Rx, recycle: bool)
    requires |s.ready| <= |s.posted| && 0 !in s.posted
    ensures var r := Clean(s, recycle);
            && r.upper == s.upper && r.posted == s.posted[|s.ready|..]
            && r.queue == s.queue + (if recycle then [] else Picked(s.posted, s.ready, true))
            && r.pool == s.pool + (if recycle then s.posted[..|s.ready|] else Picked(s.posted, s.ready, false))
    decreases |s.ready|
  {
    hide Picked, Clean, PollOne;
    if s.ready == [] {
      NothingPicked(s, recycle);
    } else {
      var s2 := CleanStep(s, recycle);
      CleanSorts(s2, recycle);
      PickedIs(s.posted, s.ready);
      Slices(s.posted, |s.ready|);
    }
  }

  lemma CleanStep(s: Rx, recycle: bool) returns (r: Rx)
    requires 1 <= |s.ready| <= |s.posted| && 0 !in s.posted
    ensures Clean(s, recycle) == Clean(r, recycle)
    ensures var b, keep := s.posted[0], s.ready[0] && !recycle;
            r == s.(posted := s.posted[1..], ready := s.ready[1..], hot := false,
                    queue := if keep then s.queue + [b] else s.queue, pool := if keep then s.pool else s.pool + [b])
  {
    var b, s1 := s.posted[0], PollOne(s).2;
    r := if s.ready[0] && !recycle then s1.(queue := s1.queue + [b]) else s1.(pool := s1.pool + [b]);
  }

  lemma NothingPicked(s: Rx, recycle: bool)
    requires s.ready == []
    ensures Picked(s.posted, s.ready, true) == [] == Picked(s.posted, s.ready, false)
    ensures s.posted[0..] == s.posted && s.posted[..0] == []
    ensures Clean(s, recycle) == s.(hot := Clean(s, recycle).hot)
  {
  }

  lemma Slices(bs: seq<Buf>, n: nat)
    requires 1 <= n <= |bs|
    ensures bs[1..][n - 1..] == bs[n..] && [bs[0]] + bs[1..][..n - 1] == bs[..n]
  {
  }

  lemma PickedIs(posted: seq<Buf>, ready: seq<bool>)
    requires posted != [] && ready != []
    ensures Picked(posted, ready, true) == (if ready[0] then [posted[0]] else []) + Picked(posted[1..], ready[1..], true)
    ensures Picked(posted, ready, false) == (if ready[0] then [] else [posted[0]]) + Picked(posted[1..], ready[1..], false)
  {
  }

  // ---------- from the start ----------

  /** A ring starts sound exactly when the pool holds no buffer twice and batches are not empty. */
  lemma EmptyIsSound(c: Config, global: seq<Buf>)
    ensures Inv(c, Empty(global)) <==> c.batch >= 1 && Admissible(global, {})
  {
    var s := Empty(global);
    assert s.posted + s.pending == [];
    assert OffRing(s) + multiset{} + OnRing(s) == multiset(global);
    assert {} + Elements(global) == Elements(global);
    assert multiset(global) == multiset{} + multiset(global);
    assert Owed(s) == 0;
  }

  /** Filling an empty ring and running any operations on it keeps the invariant. */
  lemma StartKeeps(c: Config, global: seq<Buf>, extras: seq<seq<Buf>>, ops: seq<Op>)
    requires c.batch >= 1 && Admissible(global, {})
    ensures var s := Fill(c, Empty(global), c.num, extras);
            && Inv(c, Run(c, s, ops)) && Owed(Run(c, s, ops)) == Owed(s) - Lost(c, s, ops)
            && (forall b :: b in Run(c, s, ops).created ==> Places(Run(c, s, ops))[b] == 1)
            && (c.keepFull && c.level >= 1
                ==> |Run(c, s, ops).posted| >= Owed(s) - Lost(c, s, ops) - 2 * (c.batch - 1))
            && (|global| >= c.num ==> Owed(s) == c.num)
  {
    hide InvWith, Places;
    EmptyIsSound(c, global);
    FillKeeps(c, Empty(global), c.num, extras);
    var s := Fill(c, Empty(global), c.num, extras);
    RunKeeps(c, s, ops);
    if c.keepFull && c.level >= 1 {
      RunFeeds(c, s, ops);
    }
  }
}
