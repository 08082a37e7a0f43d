/**
 Sending from device memory: the send queue and the device memory together.  A
 packet copies each of its pieces of data, all for its one buffer.  Device memory
 comes back in two ways.  A poll gives back the buffers of the work requests it
 retires, newest first; the allocator relies on whole batches of the oldest
 pieces, and it is proved that this is what a poll returns.  The upper layer gives
 a buffer back once its data is acknowledged, in any order and before the poll;
 the allocator then takes older pieces for free, and it is proved that these were
 sent.  So no copy ever lands on data that is still to be sent, in any run of the
 two.  It is also proved exactly which packets make the memory lose some.
 */
module DeviceSend {
  import opened Bits
  import opened Buffers
  import opened TransmitCredits
  import D = DeviceMemory
  import T = TransmitPath

  datatype Both = Both(
    tx: T.Tx,
    dm: D.Dm,
    sent: nat)                // the device is done with so many of the oldest work requests in flight

  /** The buffers that pieces were copied for, in order. */
  ghost function Owners(ps: seq<D.Piece>): (bs: seq<Buf>)
    ensures |bs| == |ps| && forall i :: 0 <= i < |ps| ==> bs[i] == ps[i].buf
  {
    seq(|ps|, i requires 0 <= i < |ps| => ps[i].buf)
  }

  /** Pieces belong to work requests in flight, in the same order, any number of them to one. */
  ghost predicate Follows(bs: seq<Buf>, ws: seq<T.Wqe>)
    decreases |bs| + |ws|
  {
    if bs == [] then true
    else if ws == [] then false
    else if ws[0].buf == bs[0] then Follows(bs[1..], ws)
    else Follows(bs, ws[1..])
  }

  /** How many of the pieces belong to the first `n` work requests. */
  function Matched(bs: seq<Buf>, ws: seq<T.Wqe>, n: nat): (m: nat)
    ensures m <= |bs|
    decreases |bs| + |ws|
  {
    if n == 0 || bs == [] || ws == [] then 0
    else if ws[0].buf == bs[0] then 1 + Matched(bs[1..], ws, n)
    else Matched(bs, ws[1..], n - 1)
  }

  ghost predicate InFlight(ws: seq<T.Wqe>, buf: Buf)
  {
    exists i :: 0 <= i < |ws| && ws[i].buf == buf
  }

  /** No buffer is in flight twice. */
  ghost predicate Distinct(ws: seq<T.Wqe>)
  {
    forall i, j :: 0 <= i < j < |ws| && ws[i].buf != 0 ==> ws[i].buf != ws[j].buf
  }

  /** How many of the live pieces belong to work requests that were sent. */
  ghost function SentPieces(b: Both): (k: nat)
    ensures k <= |b.dm.live|
  {
    Matched(Owners(b.dm.live), b.tx.inflight, b.sent)
  }

  /** The device completes only what it has sent. */
  ghost predicate SentFirst(t: T.Tx, sent: nat)
  {
    sent <= |t.inflight| && forall i :: 0 <= i < |t.ready| ==> t.ready[i].idx < sent
  }

  ghost predicate Inv(b: Both, total: nat)
  {
    && T.Inv(b.tx, total) && SentFirst(b.tx, b.sent) && D.Safe(b.dm, SentPieces(b))
    && Follows(Owners(b.dm.live), b.tx.inflight) && Distinct(b.tx.inflight)
    && 0 !in Owners(b.dm.live)
  }

  // ---------- a packet's pieces ----------

  /** Copy the pieces of a packet one by one; an empty piece is passed over. */
  function CopyAll(d: D.Dm, buf: Buf, lens: seq<nat>): D.Dm
    decreases |lens|
  {
    if lens == [] then d
    else CopyAll(if lens[0] > 0 then D.Copy(d, buf, lens[0]) else d, buf, lens[1..])
  }

  predicate Short(lens: seq<nat>)
  {
    forall i :: 0 <= i < |lens| ==> lens[i] < TWO32
  }

  /** What the buffer of a packet is made to forget. */
  function Wasted(d: D.Dm, buf: Buf, lens: seq<nat>): nat
    decreases |lens|
  {
    if lens == [] then 0
    else if lens[0] == 0 then Wasted(d, buf, lens[1..])
    else D.Len(d.lens, buf) + Wasted(D.Copy(d, buf, lens[0]), buf, lens[1..])
  }

  predicate Empty(lens: seq<nat>)
  {
    forall i :: 0 <= i < |lens| ==> lens[i] == 0
  }

  predicate Grants(d: D.Dm, length: nat)
  {
    D.Aligned(length) > 0 && D.Fit(d.size, d.head, d.used, D.Aligned(length)).Some?
  }

  /** None of the pieces fits as the memory is now, except that the last one may. */
  predicate OnlyLast(d: D.Dm, lens: seq<nat>)
  {
    lens == [] || ((lens[0] == 0 || Empty(lens[1..]) || !Grants(d, lens[0])) && OnlyLast(d, lens[1..]))
  }

  /** A copy is remembered exactly when it was granted; otherwise the memory stays as it is. */
  lemma CopyRemembers(d: D.Dm, buf: Buf, length: nat)
    requires D.Placed(d)
    ensures var r := D.Copy(d, buf, length);
            && (D.Len(r.lens, buf) > 0 <==> Grants(d, length))
            && (!Grants(d, length) ==> r.size == d.size && r.head == d.head && r.used == d.used)
  {
    hide D.Tiled, D.Named, D.Aligned, Wrap, D.Fit;
    HeadInside(d);
    D.FitIs(d.size, d.head, d.used, D.Aligned(length));
    DivModUnique(d.head, d.size, 0, d.head);
  }

  lemma HeadInside(d: D.Dm)
    requires D.Placed(d)
    ensures d.head < d.size
  {
  }

  lemma {:induction false} OnlyLastSame(d: D.Dm, e: D.Dm, lens: seq<nat>)
    requires d.size == e.size && d.head == e.head && d.used == e.used
    ensures OnlyLast(d, lens) == OnlyLast(e, lens)
  {
    if lens != [] { OnlyLastSame(d, e, lens[1..]); }
  }

  /** A buffer that remembers a piece forgets it at the next piece that is not empty. */
  lemma {:induction false} WastedAgain(d: D.Dm, buf: Buf, lens: seq<nat>)
    requires D.Len(d.lens, buf) > 0
    ensures Wasted(d, buf, lens) == 0 <==> Empty(lens)
    decreases |lens|
  {
    if lens != [] {
      EmptyIs(lens);
      if lens[0] == 0 { WastedAgain(d, buf, lens[1..]); }
    }
  }

  lemma EmptyIs(lens: seq<nat>)
    requires lens != []
    ensures Empty(lens) <==> lens[0] == 0 && Empty(lens[1..])
  {
    if lens[0] == 0 && Empty(lens[1..]) {
      assert forall i :: 1 <= i < |lens| ==> lens[i] == lens[1..][i - 1];
    }
  }

  lemma {:induction false} EmptyOnlyLast(d: D.Dm, lens: seq<nat>)
    requires Empty(lens)
    ensures OnlyLast(d, lens)
  {
    if lens != [] { EmptyOnlyLast(d, lens[1..]); }
  }

  /** A packet wastes nothing exactly when none of its pieces fits before its last one. */
  lemma {:induction false} WastedNothing(d: D.Dm, buf: Buf, lens: seq<nat>)
    requires D.Placed(d) && D.Len(d.lens, buf) == 0 && Short(lens)
    ensures Wasted(d, buf, lens) == 0 <==> OnlyLast(d, lens)
    decreases |lens|
  {
    hide D.Placed, D.Copy, Grants, Empty;
    if lens != [] {
      assert Short(lens[1..]);
      if lens[0] == 0 {
        WastedNothing(d, buf, lens[1..]);
      } else {
        var r := D.Copy(d, buf, lens[0]);
        CopyRemembers(d, buf, lens[0]);
        D.CopyPlaced(d, 0, buf, lens[0]);
        if Grants(d, lens[0]) {
          WastedAgain(r, buf, lens[1..]);
          if Empty(lens[1..]) { EmptyOnlyLast(d, lens[1..]); }
        } else {
          WastedNothing(r, buf, lens[1..]);
          OnlyLastSame(d, r, lens[1..]);
        }
      }
    }
  }

  /** Copying a packet keeps the pieces well placed and what is to be sent safe, and loses what it wastes. */
  lemma {:induction false} CopyAllKeeps(d: D.Dm, k: nat, buf: Buf, lens: seq<nat>)
    requires D.Placed(d) && k <= |d.live| && Short(lens)
    ensures var r := CopyAll(d, buf, lens);
            && D.Placed(r) && D.Lost(r) == D.Lost(d) + Wasted(d, buf, lens) && D.Leaked(r) == D.Leaked(d)
            && k <= |r.live| && D.Slack(r, k) >= D.Slack(d, k)
    decreases |lens|
  {
    hide D.Placed, D.Copy, D.Lost, D.Leaked, D.Slack;
    if lens != [] {
      assert Short(lens[1..]);
      if lens[0] > 0 {
        D.CopyPlaced(d, k, buf, lens[0]);
        CopyAllKeeps(D.Copy(d, buf, lens[0]), k, buf, lens[1..]);
      } else {
        CopyAllKeeps(d, k, buf, lens[1..]);
      }
    }
  }

  /** The pieces of a packet come after all others, and belong to the newest work request. */
  lemma {:induction false} CopyAllFollows(d: D.Dm, buf: Buf, lens: seq<nat>, ws: seq<T.Wqe>, n: nat)
    requires Follows(Owners(d.live), ws) && ws != [] && ws[|ws| - 1].buf == buf != 0 && 0 !in Owners(d.live)
    requires n <= |ws| && !InFlight(ws[..n], buf)
    ensures var bs := Owners(CopyAll(d, buf, lens).live);
            Follows(bs, ws) && 0 !in bs && Matched(bs, ws, n) == Matched(Owners(d.live), ws, n)
    decreases |lens|
  {
    hide D.Copy, Follows, Matched, InFlight;
    if lens != [] {
      if lens[0] == 0 {
        CopyAllFollows(d, buf, lens[1..], ws, n);
      } else {
        var r := D.Copy(d, buf, lens[0]);
        D.CopyShape(d, buf, lens[0]);
        if |r.live| == |d.live| {
          assert Owners(r.live) == Owners(d.live);
        } else {
          assert Owners(r.live) == Owners(d.live) + [buf];
          FollowsPiece(Owners(d.live), ws, buf);
          MatchedPiece(Owners(d.live), ws, n, buf);
        }
        CopyAllFollows(r, buf, lens[1..], ws, n);
      }
    }
  }

  // ---------- steps ----------

  datatype Step =
    | Post(buf: Buf, credits: nat, blocks: nat, lens: seq<nat>)
    | Transmit
    | Complete(mark: T.Mark)
    | Poll
    | GiveBack(buf: Buf)

  ghost predicate Possible(b: Both, s: Step)
  {
    match s
    case Post(buf, credits, blocks, lens) =>
      1 <= blocks <= credits && Short(lens) && buf != 0 && !InFlight(b.tx.inflight, buf)
    case Transmit => b.sent < |b.tx.inflight|
    case Complete(m) => T.Possible(b.tx, T.Complete(m)) && m.idx < b.sent
    case Poll => true
    case GiveBack(buf) => Harmless(b, buf)
  }

  /**
   What the buffer remembers of a piece that is still to be sent does not exceed the slack.  A buffer
   whose packet was sent, and one without device memory, are harmless.
   */
  ghost predicate Harmless(b: Both, buf: Buf)
  {
    D.Sizes(b.dm.live[SentPieces(b)..], {buf}) <= D.Slack(b.dm, SentPieces(b))
  }

  /** With credits for it a packet's pieces are copied to device memory, as they fit, and it is posted. */
  function DoPost(b: Both, buf: Buf, credits: nat, blocks: nat, lens: seq<nat>): Both
  {
    if credits > b.tx.free then b
    else b.(tx := T.Send(b.tx, buf, credits, blocks), dm := CopyAll(b.dm, buf, lens))
  }

  /** What a poll gives back, buffer by buffer, also gives back its device memory. */
  ghost function DoPoll(b: Both): Both
    requires T.InOrder(b.tx) && SentFirst(b.tx, b.sent)
  {
    var n := Retired(b.tx);
    Both(T.PollCoalesced(b.tx),
         D.PutBatch(b.dm, T.Backwards(b.tx.inflight[..n]), Matched(Owners(b.dm.live), b.tx.inflight, n)),
         b.sent - n)
  }

  /** How many work requests a poll retires. */
  ghost function Retired(t: T.Tx): (n: nat)
    requires T.InOrder(t)
    ensures n <= |t.inflight|
  {
    var k := T.Drained(t.ready);
    if k == 0 then 0 else t.ready[k - 1].idx + 1
  }

  ghost function Next(b: Both, s: Step): Both
    requires T.InOrder(b.tx) && SentFirst(b.tx, b.sent)
  {
    match s
    case Post(buf, credits, blocks, lens) => DoPost(b, buf, credits, blocks, lens)
    case Transmit => b.(sent := b.sent + 1)
    case Complete(m) => b.(tx := T.Next(b.tx, T.Complete(m)))
    case Poll => DoPoll(b)
    case GiveBack(buf) => b.(dm := D.GiveBack(b.dm, buf))
  }

  /** A poll returns exactly the buffers of the work requests it retires, newest first. */
  lemma PollReturns(t: T.Tx)
    requires T.InOrder(t)
    ensures T.PollCoalesced(t).returned == t.returned + T.Backwards(t.inflight[..Retired(t)])
    ensures T.PollCoalesced(t).inflight == t.inflight[Retired(t)..]
  {
    if T.Drained(t.ready) == 0 {
      assert t.inflight[..0] == [] && t.inflight[0..] == t.inflight;
      assert t.returned + [] == t.returned;
    }
  }

  // ---------- order ----------

  lemma {:induction false} FollowsMore(bs: seq<Buf>, ws: seq<T.Wqe>, w: T.Wqe)
    requires Follows(bs, ws)
    ensures Follows(bs, ws + [w])
    decreases |bs| + |ws|
  {
    if bs != [] {
      assert (ws + [w])[1..] == ws[1..] + [w];
      if ws[0].buf == bs[0] { FollowsMore(bs[1..], ws, w); } else { FollowsMore(bs, ws[1..], w); }
    }
  }

  lemma {:induction false} FollowsPiece(bs: seq<Buf>, ws: seq<T.Wqe>, buf: Buf)
    requires Follows(bs, ws) && ws != [] && ws[|ws| - 1].buf == buf
    ensures Follows(bs + [buf], ws)
    decreases |bs| + |ws|
  {
    if bs == [] {
      assert bs + [buf] == [buf] && (bs + [buf])[1..] == [];
      if ws[0].buf != buf { FollowsPiece(bs, ws[1..], buf); }
    } else {
      assert (bs + [buf])[1..] == bs[1..] + [buf];
      if ws[0].buf == bs[0] { FollowsPiece(bs[1..], ws, buf); } else { FollowsPiece(bs, ws[1..], buf); }
    }
  }

  /** A new work request, and its pieces, do not change which pieces were sent. */
  lemma {:induction false} MatchedMore(bs: seq<Buf>, ws: seq<T.Wqe>, n: nat, w: T.Wqe)
    requires n <= |ws|
    ensures Matched(bs, ws + [w], n) == Matched(bs, ws, n)
    decreases |bs| + |ws|
  {
    if n > 0 && bs != [] {
      assert (ws + [w])[1..] == ws[1..] + [w];
      if ws[0].buf == bs[0] { MatchedMore(bs[1..], ws, n, w); } else { MatchedMore(bs, ws[1..], n - 1, w); }
    }
  }

  lemma {:induction false} MatchedPiece(bs: seq<Buf>, ws: seq<T.Wqe>, n: nat, buf: Buf)
    requires n <= |ws| && !InFlight(ws[..n], buf)
    ensures Matched(bs + [buf], ws, n) == Matched(bs, ws, n)
    decreases |bs| + |ws|
  {
    if n > 0 {
      assert ws[..n][0] == ws[0];
      var early := ws[..n];
      assert early[1..] == ws[1..][..n - 1];
      if InFlight(early[1..], buf) { Later(early, buf); }
      if bs == [] {
        assert bs + [buf] == [buf];
        MatchedPiece(bs, ws[1..], n - 1, buf);
      } else {
        assert (bs + [buf])[1..] == bs[1..] + [buf];
        if ws[0].buf == bs[0] { MatchedPiece(bs[1..], ws, n, buf); } else { MatchedPiece(bs, ws[1..], n - 1, buf); }
      }
    }
  }

  lemma {:induction false} MatchedSplit(bs: seq<Buf>, ws: seq<T.Wqe>, n: nat, s: nat)
    requires n <= s <= |ws|
    ensures var m := Matched(bs, ws, n);
            Matched(bs, ws, s) == m + Matched(bs[m..], ws[n..], s - n)
    decreases |bs| + |ws|
  {
    if n == 0 || bs == [] {
      assert bs[0..] == bs && ws[0..] == ws;
    } else if ws[0].buf == bs[0] {
      var m := Matched(bs[1..], ws, n);
      MatchedSplit(bs[1..], ws, n, s);
      assert bs[1..][m..] == bs[m + 1..];
    } else {
      MatchedSplit(bs, ws[1..], n - 1, s - 1);
      assert ws[1..][n - 1..] == ws[n..];
    }
  }

  lemma {:induction false} FollowsSplit(bs: seq<Buf>, ws: seq<T.Wqe>, n: nat)
    requires Follows(bs, ws) && n <= |ws|
    ensures var m := Matched(bs, ws, n); Follows(bs[..m], ws[..n]) && Follows(bs[m..], ws[n..])
    decreases |bs| + |ws|
  {
    if n == 0 || bs == [] {
      assert bs[0..] == bs && ws[0..] == ws;
    } else {
      assert ws[..n][1..] == ws[1..][..n - 1] && ws[1..][n - 1..] == ws[n..];
      if ws[0].buf == bs[0] {
        var m := Matched(bs[1..], ws, n);
        FollowsSplit(bs[1..], ws, n);
        assert bs[..m + 1][1..] == bs[1..][..m] && bs[1..][m..] == bs[m + 1..];
      } else {
        FollowsSplit(bs, ws[1..], n - 1);
      }
    }
  }

  lemma {:induction false} FollowsIn(bs: seq<Buf>, ws: seq<T.Wqe>, i: nat)
    requires Follows(bs, ws) && i < |bs|
    ensures InFlight(ws, bs[i])
    decreases |bs| + |ws|
  {
    if ws[0].buf == bs[0] {
      if i > 0 {
        FollowsIn(bs[1..], ws, i - 1);
      } else {
        assert ws[0].buf == bs[i];
      }
    } else {
      FollowsIn(bs, ws[1..], i);
      Later(ws, bs[i]);
    }
  }

  lemma Later(ws: seq<T.Wqe>, buf: Buf)
    requires ws != [] && InFlight(ws[1..], buf)
    ensures InFlight(ws, buf)
  {
    var i :| 0 <= i < |ws[1..]| && ws[1..][i].buf == buf;
    assert ws[i + 1].buf == buf;
  }

  lemma {:induction false} BackwardsHas(ws: seq<T.Wqe>, buf: Buf)
    requires buf != 0
    ensures buf in T.Backwards(ws) <==> InFlight(ws, buf)
  {
    if ws != [] {
      var n := |ws| - 1;
      BackwardsHas(ws[..n], buf);
      InFlightLast(ws, buf);
    }
  }

  lemma InFlightLast(ws: seq<T.Wqe>, buf: Buf)
    requires ws != []
    ensures InFlight(ws, buf) <==> InFlight(ws[..|ws| - 1], buf) || ws[|ws| - 1].buf == buf
  {
    var n := |ws| - 1;
    assert forall i :: 0 <= i < n ==> ws[..n][i] == ws[i];
    if InFlight(ws[..n], buf) {
      var i :| 0 <= i < n && ws[..n][i].buf == buf;
      assert ws[i].buf == buf;
    }
    if i :| 0 <= i < n && ws[i].buf == buf {
      assert ws[..n][i].buf == buf;
    }
  }

  /** The central fact: what a poll returns is a whole batch of the oldest pieces. */
  lemma ReturnsBatch(b: Both, total: nat, n: nat)
    requires Inv(b, total) && n <= |b.tx.inflight|
    ensures D.Batch(b.dm, T.Backwards(b.tx.inflight[..n]), Matched(Owners(b.dm.live), b.tx.inflight, n))
  {
    hide T.Inv, D.Safe, Follows, Distinct, T.Backwards;
    var bs, ws := Owners(b.dm.live), b.tx.inflight;
    var m, bufs := Matched(bs, ws, n), T.Backwards(ws[..n]);
    FollowsSplit(bs, ws, n);
    forall i | 0 <= i < m
      ensures bs[i] in bufs
    {
      FollowsIn(bs[..m], ws[..n], i);
      BackwardsHas(ws[..n], bs[i]);
    }
    forall i | m <= i < |bs|
      ensures bs[i] !in bufs
    {
      FollowsIn(bs[m..], ws[n..], i - m);
      BackwardsHas(ws[..n], bs[i]);
      OnlyOnce(ws, n, bs[i]);
    }
  }

  lemma OnlyOnce(ws: seq<T.Wqe>, n: nat, buf: Buf)
    requires Distinct(ws) && n <= |ws| && buf != 0 && InFlight(ws[n..], buf)
    ensures !InFlight(ws[..n], buf)
  {
    var j :| 0 <= j < |ws[n..]| && ws[n..][j].buf == buf;
    forall i | 0 <= i < n
      ensures ws[..n][i].buf != buf
    {
      assert ws[i].buf != 0 ==> ws[i].buf != ws[n + j].buf;
    }
  }

  // ---------- every run ----------

  /** A buffer that is not in flight holds no device memory. */
  lemma HoldsNothing(b: Both, total: nat, buf: Buf)
    requires Inv(b, total) && !InFlight(b.tx.inflight, buf)
    ensures D.Len(b.dm.lens, buf) == 0
  {
    hide T.Inv, D.Tiled, D.Slack, SentPieces;
    if D.Len(b.dm.lens, buf) > 0 {
      var i: nat :| D.Holds(b.dm.live, i, buf);
      FollowsIn(Owners(b.dm.live), b.tx.inflight, i);
    }
  }

  lemma PostKeeps(b: Both, total: nat, buf: Buf, credits: nat, blocks: nat, lens: seq<nat>)
    requires Inv(b, total) && Possible(b, Post(buf, credits, blocks, lens))
    ensures Inv(DoPost(b, buf, credits, blocks, lens), total)
  {
    hide T.Inv, D.Placed, D.Slack, CopyAll, Follows, Matched, Distinct, InFlight;
    if credits <= b.tx.free {
      var w, ws, k := T.Wqe(b.tx.head, blocks, credits, buf), b.tx.inflight, SentPieces(b);
      var r := DoPost(b, buf, credits, blocks, lens);
      assert r.tx.inflight == ws + [w] && r.tx.ready == b.tx.ready;
      T.SendKeeps(b.tx, total, buf, credits, blocks);
      CopyAllKeeps(b.dm, k, buf, lens);
      DistinctMore(ws, w);
      FollowsMore(Owners(b.dm.live), ws, w);
      MatchedMore(Owners(b.dm.live), ws, b.sent, w);
      NotAmong(ws, w, b.sent);
      CopyAllFollows(b.dm, buf, lens, ws + [w], b.sent);
    }
  }

  lemma NotAmong(ws: seq<T.Wqe>, w: T.Wqe, n: nat)
    requires !InFlight(ws, w.buf) && n <= |ws|
    ensures !InFlight((ws + [w])[..n], w.buf)
  {
    assert forall i :: 0 <= i < n ==> (ws + [w])[..n][i] == ws[i];
  }

  lemma DistinctMore(ws: seq<T.Wqe>, w: T.Wqe)
    requires Distinct(ws) && !InFlight(ws, w.buf)
    ensures Distinct(ws + [w])
  {
  }

  lemma PollKeeps(b: Both, total: nat)
    requires Inv(b, total)
    ensures Inv(DoPoll(b), total) && D.Lost(DoPoll(b).dm) == D.Lost(b.dm)
  {
    hide T.Inv, D.Safe, T.PollCoalesced, D.PutBatch, D.Batch, D.Lost, Follows, Matched, Distinct;
    Orderly(b.tx, total);
    var n := Retired(b.tx);
    var ws, bs := b.tx.inflight, Owners(b.dm.live);
    var m := Matched(bs, ws, n);
    T.NextKeeps(b.tx, total, T.Poll);
    PollReturns(b.tx);
    StillSent(b.tx, b.sent);
    ReturnsBatch(b, total, n);
    MatchedSplit(bs, ws, n, b.sent);
    D.SafeBatch(b.dm, SentPieces(b), T.Backwards(ws[..n]), m);
    BatchLeaves(b.dm, T.Backwards(ws[..n]), m);
    FollowsSplit(bs, ws, n);
    assert Owners(b.dm.live[m..]) == bs[m..];
    DistinctFewer(ws, n);
  }

  /** What a poll retires was sent, and what it leaves complete was too. */
  lemma StillSent(t: T.Tx, sent: nat)
    requires T.InOrder(t) && SentFirst(t, sent)
    ensures Retired(t) <= sent && SentFirst(T.PollCoalesced(t), sent - Retired(t))
  {
    var k, r := T.Drained(t.ready), T.PollCoalesced(t);
    if k > 0 {
      var n := t.ready[k - 1].idx + 1;
      assert t.ready[k - 1].idx < sent;
      forall i | 0 <= i < |r.ready|
        ensures r.ready[i].idx < sent - n
      {
        T.ShiftAt(t.ready[k..], n, i);
        assert t.ready[k - 1].idx < t.ready[k + i].idx < sent;
      }
    }
  }

  lemma DistinctFewer(ws: seq<T.Wqe>, n: nat)
    requires Distinct(ws) && n <= |ws|
    ensures Distinct(ws[n..])
  {
  }

  lemma Orderly(t: T.Tx, total: nat)
    requires T.Inv(t, total)
    ensures T.InOrder(t)
  {
  }

  lemma BatchLeaves(d: D.Dm, bufs: seq<Buf>, m: nat)
    requires m <= |d.live|
    ensures D.PutBatch(d, bufs, m).live == d.live[m..]
  {
  }

  /** The memory a step loses: what a packet that is posted wastes. */
  function LossOf(b: Both, s: Step): nat
  {
    if s.Post? && s.credits <= b.tx.free then Wasted(b.dm, s.buf, s.lens) else 0
  }

  /** The step wastes nothing. */
  predicate Frugal(b: Both, s: Step)
  {
    s.Post? && s.credits <= b.tx.free ==> OnlyLast(b.dm, s.lens)
  }

  /** The device is done with one more work request. */
  lemma TransmitKeeps(b: Both, total: nat)
    requires Inv(b, total) && b.sent < |b.tx.inflight|
    ensures Inv(b.(sent := b.sent + 1), total)
  {
    hide T.Inv, D.Placed, Follows, Matched, Distinct;
    MatchedSplit(Owners(b.dm.live), b.tx.inflight, b.sent, b.sent + 1);
    D.SafeMore(b.dm, SentPieces(b), SentPieces(b.(sent := b.sent + 1)));
  }

  /** Giving a buffer back keeps both sound exactly when it is harmless. */
  lemma GiveBackKeeps(b: Both, total: nat, buf: Buf)
    requires Inv(b, total)
    ensures var r := b.(dm := D.GiveBack(b.dm, buf));
            (Inv(r, total) <==> Harmless(b, buf)) && D.Lost(r.dm) == D.Lost(b.dm)
  {
    hide T.Inv, D.Safe, D.Slack, D.Sizes, D.Lost, Follows, Matched, Distinct;
    D.GiveBackExact(b.dm, SentPieces(b), buf);
    SameOwners(b.dm, buf);
  }

  lemma SameOwners(d: D.Dm, buf: Buf)
    ensures Owners(D.GiveBack(d, buf).live) == Owners(d.live)
  {
  }

  /** A buffer whose packet was sent is harmless, and so is one that holds no device memory. */
  lemma SentHarmless(b: Both, total: nat, buf: Buf)
    requires Inv(b, total)
    requires (buf != 0 && InFlight(b.tx.inflight[..b.sent], buf)) || D.Len(b.dm.lens, buf) == 0
    ensures Harmless(b, buf)
  {
    hide T.Inv, D.Placed, D.Slack, Follows, Distinct, InFlight;
    var k, live, ws := SentPieces(b), b.dm.live, b.tx.inflight;
    if D.Len(b.dm.lens, buf) == 0 {
      D.PlacedNames(b.dm, buf);
      D.SizesSplit(live, {buf}, k);
    } else {
      FollowsSplit(Owners(live), ws, b.sent);
      forall i | 0 <= i < |live[k..]|
        ensures live[k..][i].buf != buf
      {
        FollowsIn(Owners(live)[k..], ws[b.sent..], i);
        if live[k..][i].buf == buf { OnlyOnce(ws, b.sent, buf); }
      }
      D.SizesNone(live[k..], {buf});
    }
  }

  lemma NextKeeps(b: Both, total: nat, s: Step)
    requires Inv(b, total) && Possible(b, s)
    ensures Inv(Next(b, s), total) && D.Lost(Next(b, s).dm) == D.Lost(b.dm) + LossOf(b, s)
    ensures LossOf(b, s) == 0 <==> Frugal(b, s)
  {
    hide T.Inv, D.Placed, D.Slack, D.Lost, D.GiveBack, CopyAll, Wasted, OnlyLast, DoPoll, Harmless, Matched, Follows;
    Orderly(b.tx, total);
    match s
    case Post(buf, credits, blocks, lens) =>
      PostKeeps(b, total, buf, credits, blocks, lens);
      CopyAllKeeps(b.dm, 0, buf, lens);
      HoldsNothing(b, total, buf);
      WastedNothing(b.dm, buf, lens);
    case Transmit => TransmitKeeps(b, total);
    case Complete(m) => T.NextKeeps(b.tx, total, T.Complete(m));
    case Poll => PollKeeps(b, total);
    case GiveBack(buf) => GiveBackKeeps(b, total, buf);
  }

  ghost predicate Feasible(b: Both, steps: seq<Step>)
    decreases |steps|
  {
    steps == [] ||
    (T.InOrder(b.tx) && SentFirst(b.tx, b.sent) && Possible(b, steps[0]) && Feasible(Next(b, steps[0]), steps[1..]))
  }

  ghost function Run(b: Both, steps: seq<Step>): Both
    requires Feasible(b, steps)
    decreases |steps|
  {
    if steps == [] then b else Run(Next(b, steps[0]), steps[1..])
  }

  ghost function Loss(b: Both, steps: seq<Step>): nat
    requires Feasible(b, steps)
    decreases |steps|
  {
    if steps == [] then 0 else LossOf(b, steps[0]) + Loss(Next(b, steps[0]), steps[1..])
  }

  ghost predicate AllFrugal(b: Both, steps: seq<Step>)
    requires Feasible(b, steps)
    decreases |steps|
  {
    steps == [] || (Frugal(b, steps[0]) && AllFrugal(Next(b, steps[0]), steps[1..]))
  }

  /**
   Over every run of posts, of packets with any number of pieces, transmissions, completions, polls
   and harmless early returns both invariants hold together: no release frees device memory that is
   still to be sent.  The memory lost is what the packets waste, and none is lost exactly when no
   packet has a piece copied before its last one; it is all that is in use once nothing is in flight.
   */
  lemma {:induction false} RunKeeps(b: Both, total: nat, steps: seq<Step>)
    requires Inv(b, total) && Feasible(b, steps)
    ensures var r := Run(b, steps);
            && Inv(r, total) && D.Lost(r.dm) == D.Lost(b.dm) + Loss(b, steps)
            && (D.Lost(r.dm) == D.Lost(b.dm) <==> AllFrugal(b, steps))
            && (r.tx.inflight == [] ==> r.dm.used == D.Lost(r.dm))
    decreases |steps|
  {
    hide Inv, Next, Possible, D.Lost, LossOf, Frugal, SentFirst;
    if steps == [] {
      InUse(b, total);
    } else {
      NextKeeps(b, total, steps[0]);
      RunKeeps(Next(b, steps[0]), total, steps[1..]);
    }
  }

  /** Once nothing is in flight no piece is live, and what is in use is lost. */
  lemma InUse(b: Both, total: nat)
    requires Inv(b, total)
    ensures b.tx.inflight == [] ==> b.dm.live == [] && b.dm.used == D.Lost(b.dm)
  {
    hide T.Inv;
    assert b.tx.inflight == [] ==> Owners(b.dm.live) == [];
  }

  /** In every state of every run, no two pieces that are still to be sent share a byte. */
  lemma RunDisjoint(b: Both, total: nat, steps: seq<Step>, i: nat, j: nat, x: nat)
    requires Inv(b, total) && Feasible(b, steps)
    requires SentPieces(Run(b, steps)) <= i < j < |Run(b, steps).dm.live|
    ensures var d := Run(b, steps).dm;
            d.size >= 1 && !(D.Covers(d, i, x) && D.Covers(d, j, x))
  {
    hide T.Inv, D.Safe, Follows, Run, D.Covers, SentPieces;
    RunKeeps(b, total, steps);
    D.UnsentDisjoint(Run(b, steps).dm, SentPieces(Run(b, steps)), i, j, x);
  }

  /** While only polls give buffers back, every live piece stays in use, sent or not, and none shares a byte with another. */
  lemma {:induction false} RunInUse(b: Both, total: nat, steps: seq<Step>)
    requires Inv(b, total) && D.Inv(b.dm) && Feasible(b, steps)
    requires forall i :: 0 <= i < |steps| ==> !steps[i].GiveBack?
    ensures var d := Run(b, steps).dm;
            && D.Inv(d) && d.used == D.Sum(d.live) + D.Leaked(d) && 0 <= D.Leaked(d) <= D.Lost(d)
            && (forall i: nat, j: nat, x: nat :: i < j < |d.live| ==> !(D.Covers(d, i, x) && D.Covers(d, j, x)))
    decreases |steps|
  {
    hide Inv, Next, Possible, D.Placed, D.Covers, SentFirst;
    if steps == [] {
      HeadInside(b.dm);
      forall i: nat, j: nat, x: nat | i < j < |b.dm.live|
        ensures !(D.Covers(b.dm, i, x) && D.Covers(b.dm, j, x))
      {
        D.PiecesDisjoint(b.dm, i, j, x);
      }
    } else {
      NextKeeps(b, total, steps[0]);
      NextInUse(b, total, steps[0]);
      RunInUse(Next(b, steps[0]), total, steps[1..]);
    }
  }

  lemma NextInUse(b: Both, total: nat, s: Step)
    requires Inv(b, total) && D.Inv(b.dm) && T.InOrder(b.tx) && Possible(b, s) && !s.GiveBack?
    ensures D.Inv(Next(b, s).dm)
  {
    hide T.Inv, D.Placed, D.Slack, D.PutBatch, CopyAll, Matched, Follows;
    match s
    case Post(buf, credits, blocks, lens) => CopyAllKeeps(b.dm, 0, buf, lens);
    case Poll =>
      ReturnsBatch(b, total, Retired(b.tx));
      D.BatchKeeps(b.dm, T.Backwards(b.tx.inflight[..Retired(b.tx)]),
                   Matched(Owners(b.dm.live), b.tx.inflight, Retired(b.tx)));
    case _ =>
  }

  /** A packet with one piece of data never wastes any. */
  lemma {:induction false} OnePieceFrugal(d: D.Dm, lens: seq<nat>)
    requires NonEmpty(lens) <= 1
    ensures OnlyLast(d, lens)
  {
    if lens != [] {
      OnePieceFrugal(d, lens[1..]);
      if lens[0] > 0 { NoneLeft(lens[1..]); }
    }
  }

  lemma {:induction false} NoneLeft(lens: seq<nat>)
    requires NonEmpty(lens) == 0
    ensures Empty(lens)
  {
    if lens != [] {
      NoneLeft(lens[1..]);
      EmptyIs(lens);
    }
  }

  /** A packet of two pieces of eight bytes wastes the first of them in an idle memory. */
  lemma TwoPiecesWaste(d: D.Dm, buf: Buf)
    requires D.Inv(d) && d.used == 0 && d.head == 0 && d.size >= 8 && D.Len(d.lens, buf) == 0
    ensures Wasted(d, buf, [8, 8]) == 8
  {
    hide D.Inv, D.Disown;
    var r := D.Copy(d, buf, 8);
    assert D.Aligned(8) == 8;
    assert D.Len(r.lens, buf) == 8;
    assert [8, 8][1..] == [8] && [8][1..] == [];
    assert Wasted(r, buf, [8]) == 8 + Wasted(D.Copy(r, buf, 8), buf, []);
  }

  /** An empty queue and an empty memory, to start with. */
  lemma Start(total: nat, size: nat)
    requires 1 <= size < TWO64 && size % 8 == 0
    ensures var b := Both(T.Tx([], total, 0, [], [], [], []), D.Dm(size, 0, 0, map[], [], 0), 0);
            Inv(b, total) && D.Inv(b.dm) && D.Lost(b.dm) == 0
  {
    D.Empty(size);
    var t := T.Tx([], total, 0, [], [], [], []);
    assert T.Inv(t, total);
    assert Owners([]) == [];
  }
}
